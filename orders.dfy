/**
 * The order-placement handler (backend/server.js:299-352) over an in-memory
 * product table. Items are processed in request order; each one is looked up
 * afresh, checked against the current stock, priced, recorded and written
 * back at once. A failure part-way through returns an error and leaves the
 * earlier writes in place; only when every item passes is one order created.
 * Prices are integer cents; quantities are integers and are not validated.
 */
module Orders {
  import Auth

  type ProductId = string

  /** The product fields the handler reads and writes (`name`, `price`, `stock`). */
  datatype Product = Product(name: string, price: int, stock: int)

  /** One requested line: `{ productId, quantity }` from the request body. */
  datatype LineRequest = LineRequest(productId: ProductId, quantity: int)

  /** One `productDetails` entry: the product as read during the loop, and the quantity. */
  datatype Detail = Detail(productId: ProductId, name: string, price: int, quantity: int)

  /** One line of a stored order: `{ productId, quantity, price }`. */
  datatype OrderLine = OrderLine(productId: ProductId, quantity: int, price: int)

  datatype Address = Address(street: string, city: string, state: string, zipCode: string, country: string)

  /** A stored order. The creation time is left out. */
  datatype Order = Order(
    userId: Auth.UserId,
    products: seq<OrderLine>,
    totalAmount: int,
    shippingAddress: Address,
    status: string)

  /** The two 400 responses: "Product <id> not found" and "Insufficient stock for <name>". */
  datatype OrderError = ProductNotFound(productId: ProductId) | InsufficientStock(productName: string)

  /** The schema's default order status. */
  const PendingStatus: string := "pending"

  type Catalog = map<ProductId, Product>

  /** The loop's state: the product table, `totalAmount` and `productDetails`. */
  datatype Progress = Progress(catalog: Catalog, total: int, details: seq<Detail>)

  /** How the loop ends: after the last item, or at a failing item with the table as written so far. */
  datatype Outcome = Completed(state: Progress) | Aborted(error: OrderError, catalog: Catalog)

  /** The handler's result: the order and the details it reports, or the error. */
  datatype Placed = Created(order: Order, details: seq<Detail>) | Rejected(error: OrderError)

  function Start(catalog: Catalog): Progress {
    Progress(catalog, 0, [])
  }

  /** An item gets past both checks: the product exists and `stock < quantity` is false. */
  predicate Passes(catalog: Catalog, item: LineRequest) {
    item.productId in catalog && item.quantity <= catalog[item.productId].stock
  }

  /** The error for an item that does not pass. */
  function ErrorFor(catalog: Catalog, item: LineRequest): OrderError {
    if item.productId !in catalog then ProductNotFound(item.productId)
    else InsufficientStock(catalog[item.productId].name)
  }

  /**
   * The write-back `product.stock -= item.quantity`: the item's product loses
   * the quantity and nothing else in the table changes. Because the item
   * passed the check, the stock written is never negative.
   */
  function Withdraw(catalog: Catalog, item: LineRequest): (c: Catalog)
    requires Passes(catalog, item)
    ensures c.Keys == catalog.Keys
    ensures c[item.productId] == catalog[item.productId].(stock := catalog[item.productId].stock - item.quantity)
    ensures c[item.productId].stock >= 0
    ensures c[item.productId].stock <= catalog[item.productId].stock <==> item.quantity >= 0
    ensures forall id :: id in catalog && id != item.productId ==> c[id] == catalog[id]
  {
    var p := catalog[item.productId];
    catalog[item.productId := p.(stock := p.stock - item.quantity)]
  }

  /** One pass of the loop body for an item that passed the checks. */
  function Apply(s: Progress, item: LineRequest): Progress
    requires Passes(s.catalog, item)
  {
    var p := s.catalog[item.productId];
    Progress(
      Withdraw(s.catalog, item),
      s.total + p.price * item.quantity,
      s.details + [Detail(item.productId, p.name, p.price, item.quantity)])
  }

  /** The loop from state `s` over `items`, in order. */
  function Run(s: Progress, items: seq<LineRequest>): Outcome
    decreases |items|
  {
    if items == [] then Completed(s)
    else if !Passes(s.catalog, items[0]) then Aborted(ErrorFor(s.catalog, items[0]), s.catalog)
    else Run(Apply(s, items[0]), items[1..])
  }

  /** The order lines built from the details (`productDetails.map(...)`). */
  function LinesOf(details: seq<Detail>): seq<OrderLine> {
    seq(|details|, k requires 0 <= k < |details| =>
      OrderLine(details[k].productId, details[k].quantity, details[k].price))
  }

  /** The order created after the loop, with the default status. */
  function NewOrder(userId: Auth.UserId, s: Progress, shippingAddress: Address): Order {
    Order(userId, LinesOf(s.details), s.total, shippingAddress, PendingStatus)
  }

  // ----- Reference definitions -----

  /** The sum of `price * quantity` over order lines, added up in order. */
  function Amount(lines: seq<OrderLine>): int {
    if lines == [] then 0
    else
      var n := |lines| - 1;
      Amount(lines[..n]) + lines[n].price * lines[n].quantity
  }

  /** The total quantity requested for product `id`. */
  function QtyFor(items: seq<LineRequest>, id: ProductId): int {
    if items == [] then 0
    else (if items[0].productId == id then items[0].quantity else 0) + QtyFor(items[1..], id)
  }

  /** `after` is `before` with each product's stock reduced by what `items` request of it. */
  predicate StockReduced(before: Catalog, after: Catalog, items: seq<LineRequest>) {
    && after.Keys == before.Keys
    && forall id :: id in before ==>
         after[id] == before[id].(stock := before[id].stock - QtyFor(items, id))
  }

  /** Item `k` can be served once the items before it have been served. */
  predicate Available(catalog: Catalog, items: seq<LineRequest>, k: nat)
    requires k < |items|
  {
    var id := items[k].productId;
    id in catalog && items[k].quantity <= catalog[id].stock - QtyFor(items[..k], id)
  }

  /** Every item can be served, in order, from the initial table. */
  predicate Fulfillable(catalog: Catalog, items: seq<LineRequest>) {
    forall k :: 0 <= k < |items| ==> Available(catalog, items, k)
  }

  /** `d` is the snapshot of `item` taken from `catalog`. */
  predicate Copies(catalog: Catalog, item: LineRequest, d: Detail) {
    && item.productId in catalog
    && d == Detail(item.productId, catalog[item.productId].name, catalog[item.productId].price, item.quantity)
  }

  /** Every stock level in the table is non-negative. */
  predicate NonNegative(catalog: Catalog) {
    forall id :: id in catalog ==> catalog[id].stock >= 0
  }

  // ----- What a completed run does -----

  /** After a completed run, each stock has fallen by exactly the quantity requested of it. */
  lemma {:induction false} RunCompletedStock(s: Progress, items: seq<LineRequest>)
    requires Run(s, items).Completed?
    ensures StockReduced(s.catalog, Run(s, items).state.catalog, items)
    decreases |items|
  {
    if items != [] {
      var t := Apply(s, items[0]);
      RunCompletedStock(t, items[1..]);
    }
  }

  /**
   * After a completed run, the details are those already recorded followed
   * by one snapshot per item, in request order, with the name and price the
   * product had in the table the run started from.
   */
  lemma {:induction false} RunCompletedDetails(s: Progress, items: seq<LineRequest>)
    requires Run(s, items).Completed?
    ensures var d := Run(s, items).state.details;
      && |d| == |s.details| + |items|
      && d[..|s.details|] == s.details
      && forall k :: 0 <= k < |items| ==> Copies(s.catalog, items[k], d[|s.details| + k])
  {
    RunKeepsDetails(s, items);
    forall k | 0 <= k < |items|
      ensures Copies(s.catalog, items[k], Run(s, items).state.details[|s.details| + k])
    {
      RunDetailAt(s, items, k);
    }
  }

  /** A completed run only appends to the details: one per item. */
  lemma {:induction false} RunKeepsDetails(s: Progress, items: seq<LineRequest>)
    requires Run(s, items).Completed?
    ensures var d := Run(s, items).state.details;
      |d| == |s.details| + |items| && d[..|s.details|] == s.details
    decreases |items|
  {
    if items != [] {
      var t := Apply(s, items[0]);
      RunKeepsDetails(t, items[1..]);
      var d := Run(s, items).state.details;
      assert d[..|s.details|] == d[..|t.details|][..|s.details|];
    }
  }

  /** The detail a completed run appends for item `k` is its snapshot from the initial table. */
  lemma {:induction false} RunDetailAt(s: Progress, items: seq<LineRequest>, k: nat)
    requires Run(s, items).Completed? && k < |items|
    ensures |Run(s, items).state.details| == |s.details| + |items|
    ensures Copies(s.catalog, items[k], Run(s, items).state.details[|s.details| + k])
    decreases k
  {
    var t := Apply(s, items[0]);
    var d := Run(s, items).state.details;
    RunKeepsDetails(t, items[1..]);
    if k == 0 {
      assert d[|s.details|] == d[..|t.details|][|s.details|];
    } else {
      RunDetailAt(t, items[1..], k - 1);
      assert items[1..][k - 1] == items[k];
      CopiesBeforeWithdraw(s.catalog, items[0], items[k], d[|s.details| + k]);
    }
  }

  /** A write-back changes only a stock, so a snapshot of the new table is one of the old. */
  lemma CopiesBeforeWithdraw(c: Catalog, served: LineRequest, item: LineRequest, d: Detail)
    requires Passes(c, served) && Copies(Withdraw(c, served), item, d)
    ensures Copies(c, item, d)
  {
  }

  lemma LinesOfSnoc(ds: seq<Detail>, d: Detail)
    ensures LinesOf(ds + [d]) == LinesOf(ds) + [OrderLine(d.productId, d.quantity, d.price)]
  {
    var a, b := LinesOf(ds + [d]), LinesOf(ds) + [OrderLine(d.productId, d.quantity, d.price)];
    forall k | 0 <= k < |a| ensures a[k] == b[k] {
      if k < |ds| {
        assert (ds + [d])[k] == ds[k];
      }
    }
  }

  /** A total that is the amount of the lines so far stays so through a completed run. */
  lemma {:induction false} RunCompletedTotal(s: Progress, items: seq<LineRequest>)
    requires Run(s, items).Completed?
    requires s.total == Amount(LinesOf(s.details))
    ensures Run(s, items).state.total == Amount(LinesOf(Run(s, items).state.details))
    decreases |items|
  {
    if items != [] {
      var t := Apply(s, items[0]);
      var p := s.catalog[items[0].productId];
      var line := OrderLine(items[0].productId, items[0].quantity, p.price);
      LinesOfSnoc(s.details, Detail(items[0].productId, p.name, p.price, items[0].quantity));
      assert (LinesOf(s.details) + [line])[..|s.details|] == LinesOf(s.details);
      RunCompletedTotal(t, items[1..]);
    }
  }

  // ----- When a run completes -----

  lemma QtyForPrefixCons(items: seq<LineRequest>, k: nat, id: ProductId)
    requires 1 <= k <= |items|
    ensures QtyFor(items[..k], id)
         == (if items[0].productId == id then items[0].quantity else 0) + QtyFor(items[1..][..k - 1], id)
  {
    assert items[..k][0] == items[0];
    assert items[..k][1..] == items[1..][..k - 1];
  }

  /** After the first item is served, item `k` is available exactly when it was before. */
  lemma AvailableShift(c: Catalog, items: seq<LineRequest>, k: nat)
    requires 1 <= k < |items| && Passes(c, items[0])
    ensures Available(c, items, k) <==> Available(Withdraw(c, items[0]), items[1..], k - 1)
  {
    QtyForPrefixCons(items, k, items[k].productId);
    assert items[1..][k - 1] == items[k];
  }

  lemma FulfillableCons(c: Catalog, items: seq<LineRequest>)
    requires items != []
    ensures Fulfillable(c, items) <==>
      Passes(c, items[0]) && Fulfillable(Withdraw(c, items[0]), items[1..])
  {
    assert items[..0] == [];
    assert Available(c, items, 0) <==> Passes(c, items[0]);
    if Passes(c, items[0]) {
      var c' := Withdraw(c, items[0]);
      forall k | 1 <= k < |items| ensures Available(c, items, k) <==> Available(c', items[1..], k - 1) {
        AvailableShift(c, items, k);
      }
      if Fulfillable(c', items[1..]) {
        forall k | 0 <= k < |items| ensures Available(c, items, k) {
          if k > 0 {
            assert Available(c', items[1..], k - 1);
          }
        }
      }
      if Fulfillable(c, items) {
        forall k | 0 <= k < |items| - 1 ensures Available(c', items[1..], k) {
          assert Available(c, items, k + 1);
        }
      }
    }
  }

  /** The loop reaches the end exactly when every item can be served in order from the initial table. */
  lemma {:induction false} RunCompletesIff(s: Progress, items: seq<LineRequest>)
    ensures Run(s, items).Completed? <==> Fulfillable(s.catalog, items)
    decreases |items|
  {
    if items != [] {
      FulfillableCons(s.catalog, items);
      if Passes(s.catalog, items[0]) {
        RunCompletesIff(Apply(s, items[0]), items[1..]);
      }
    }
  }

  // ----- When a run aborts -----

  /** Running `a + b` is running `a`, then, if it completed, `b`. */
  lemma {:induction false} RunAppend(s: Progress, a: seq<LineRequest>, b: seq<LineRequest>)
    ensures Run(s, a + b) == if Run(s, a).Completed? then Run(Run(s, a).state, b) else Run(s, a)
    decreases |a|
  {
    if a == [] {
      assert a + b == b;
    } else {
      assert (a + b)[0] == a[0];
      assert (a + b)[1..] == a[1..] + b;
      if Passes(s.catalog, a[0]) {
        RunAppend(Apply(s, a[0]), a[1..], b);
      }
    }
  }

  /** Item `k` is where the loop stops: the items before it complete and it fails. */
  predicate FailsAt(s: Progress, items: seq<LineRequest>, k: nat) {
    && k < |items|
    && Run(s, items[..k]).Completed?
    && !Passes(Run(s, items[..k]).state.catalog, items[k])
  }

  /**
   * At the item where the loop stops, the result is that item's error, and
   * the table keeps every write made for the items before it: each of their
   * products is reduced by what those items requested, and products
   * requested only later are untouched.
   */
  lemma RunAborted(s: Progress, items: seq<LineRequest>, k: nat)
    requires FailsAt(s, items, k)
    ensures var c := Run(s, items[..k]).state.catalog;
      && Run(s, items) == Aborted(ErrorFor(c, items[k]), c)
      && StockReduced(s.catalog, c, items[..k])
  {
    assert items == items[..k] + items[k..];
    RunAppend(s, items[..k], items[k..]);
    assert items[k..][0] == items[k];
    RunCompletedStock(s, items[..k]);
  }

  /** A loop that aborts stops at some item. */
  lemma {:induction false} RunAbortsSomewhere(s: Progress, items: seq<LineRequest>)
    requires Run(s, items).Aborted?
    ensures exists k :: FailsAt(s, items, k)
    decreases |items|
  {
    assert items != [] && items[..0] == [];
    if Passes(s.catalog, items[0]) {
      var t := Apply(s, items[0]);
      RunAbortsSomewhere(t, items[1..]);
      var k: nat :| FailsAt(t, items[1..], k);
      assert items[..k + 1][0] == items[0];
      assert items[..k + 1][1..] == items[1..][..k];
      assert items[1..][k] == items[k + 1];
      assert FailsAt(s, items, k + 1);
    } else {
      assert FailsAt(s, items, 0);
    }
  }

  /** An unknown product id aborts the loop with "not found", whatever comes after it. */
  lemma UnknownProductAborts(s: Progress, items: seq<LineRequest>, k: nat)
    requires k < |items| && Run(s, items[..k]).Completed?
    requires items[k].productId !in s.catalog
    ensures Run(s, items) == Aborted(ProductNotFound(items[k].productId), Run(s, items[..k]).state.catalog)
  {
    RunCompletedStock(s, items[..k]);
    RunAborted(s, items, k);
  }

  // ----- Stock never goes below zero -----

  /** Stock that was non-negative stays non-negative, however the loop ends. */
  lemma {:induction false} RunKeepsNonNegative(s: Progress, items: seq<LineRequest>)
    requires NonNegative(s.catalog)
    ensures Run(s, items).Completed? ==> NonNegative(Run(s, items).state.catalog)
    ensures Run(s, items).Aborted? ==> NonNegative(Run(s, items).catalog)
    decreases |items|
  {
    if items != [] && Passes(s.catalog, items[0]) {
      var t := Apply(s, items[0]);
      assert NonNegative(t.catalog);
      RunKeepsNonNegative(t, items[1..]);
    }
  }

  // ----- The order created -----

  /**
   * What a successful placement creates: an order with the default status
   * whose lines copy each item's id and quantity and the product's price, in
   * request order, whose total is the amount of those lines, and a table in
   * which each stock has fallen by the quantity requested of it.
   */
  lemma PlacedOrder(catalog: Catalog, items: seq<LineRequest>, userId: Auth.UserId, shippingAddress: Address)
    requires Run(Start(catalog), items).Completed?
    ensures var t := Run(Start(catalog), items).state;
      var o := NewOrder(userId, t, shippingAddress);
      && o.status == PendingStatus
      && o.userId == userId
      && o.totalAmount == Amount(o.products)
      && |o.products| == |items|
      && (forall k :: 0 <= k < |items| ==>
            (items[k].productId in catalog &&
             o.products[k] == OrderLine(items[k].productId, items[k].quantity, catalog[items[k].productId].price)))
      && StockReduced(catalog, t.catalog, items)
  {
    var s := Start(catalog);
    var t := Run(s, items).state;
    RunCompletedStock(s, items);
    RunCompletedDetails(s, items);
    assert LinesOf([]) == [];
    RunCompletedTotal(s, items);
    forall k | 0 <= k < |items|
      ensures items[k].productId in catalog &&
        LinesOf(t.details)[k] == OrderLine(items[k].productId, items[k].quantity, catalog[items[k].productId].price)
    {
      assert Copies(catalog, items[k], t.details[0 + k]);
    }
  }

  // ----- Examples of the behaviours above -----

  /** A repeated id sees the stock the earlier item left: 3 + 3 of 5 fails at the second, keeping the first write. */
  lemma RepeatedIdSeesReducedStock()
    ensures var c := map["m" := Product("Mouse", 2999, 5)];
      Run(Start(c), [LineRequest("m", 3), LineRequest("m", 3)])
        == Aborted(InsufficientStock("Mouse"), map["m" := Product("Mouse", 2999, 2)])
  {
  }

  /** A negative quantity passes the check, raises the stock and lowers the total. */
  lemma NegativeQuantityRaisesStock()
    ensures var c := map["m" := Product("Mouse", 2999, 5)];
      Run(Start(c), [LineRequest("m", -4)])
        == Completed(Progress(map["m" := Product("Mouse", 2999, 9)], -11996, [Detail("m", "Mouse", 2999, -4)]))
  {
  }

  /** A single item within stock: 2 of "Laptop Pro" at 1299.99 with 30 in stock gives 2599.98 and leaves 28. */
  lemma SingleItemWithinStock()
    ensures var c := map["lp" := Product("Laptop Pro", 129999, 30)];
      Run(Start(c), [LineRequest("lp", 2)])
        == Completed(Progress(map["lp" := Product("Laptop Pro", 129999, 28)], 259998, [Detail("lp", "Laptop Pro", 129999, 2)]))
  {
  }

  // ----- The product and order collections -----

  class Shop {
    var products: Catalog
    var orders: seq<Order>

    constructor (catalog: Catalog)
      ensures products == catalog && orders == []
    {
      products := catalog;
      orders := [];
    }

    /**
     * `POST /api/orders` for the authenticated user `userId`: the table and
     * the result are those of the loop run over the items; a completed run
     * appends its one order, and an aborted one appends nothing.
     */
    method PlaceOrder(userId: Auth.UserId, items: seq<LineRequest>, shippingAddress: Address) returns (r: Placed)
      modifies this
      ensures match Run(Start(old(products)), items)
        case Completed(t) =>
          && products == t.catalog
          && r == Created(NewOrder(userId, t, shippingAddress), t.details)
          && orders == old(orders) + [r.order]
        case Aborted(e, c) =>
          && products == c
          && r == Rejected(e)
          && orders == old(orders)
      ensures r.Created? ==>
        && r.order.status == PendingStatus
        && r.order.totalAmount == Amount(r.order.products)
        && StockReduced(old(products), products, items)
      ensures old(NonNegative(products)) ==> NonNegative(products)
    {
      ghost var start := Start(products);
      if NonNegative(products) {
        RunKeepsNonNegative(start, items);
      }
      var totalAmount := 0;
      var productDetails: seq<Detail> := [];
      var i := 0;
      while i < |items|
        invariant 0 <= i <= |items|
        invariant Run(Progress(products, totalAmount, productDetails), items[i..]) == Run(start, items)
        invariant orders == old(orders)
      {
        var item := items[i];
        if item.productId !in products {
          return Rejected(ProductNotFound(item.productId));
        }
        var product := products[item.productId];
        if product.stock < item.quantity {
          return Rejected(InsufficientStock(product.name));
        }
        ghost var before := Progress(products, totalAmount, productDetails);
        totalAmount := totalAmount + product.price * item.quantity;
        productDetails := productDetails + [Detail(item.productId, product.name, product.price, item.quantity)];
        products := products[item.productId := product.(stock := product.stock - item.quantity)];
        assert Progress(products, totalAmount, productDetails) == Apply(before, item);
        assert items[i..][1..] == items[i + 1..];
        i := i + 1;
      }
      var order := NewOrder(userId, Progress(products, totalAmount, productDetails), shippingAddress);
      orders := orders + [order];
      r := Created(order, productDetails);
      PlacedOrder(start.catalog, items, userId, shippingAddress);
    }
  }
}
