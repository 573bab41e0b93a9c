/**
 * Placing an order from the caller's cart: the empty-cart and stock checks,
 * the total and the order lines at the prices of the moment, and the single
 * unit of work that records the order, moves units from stock to sold and
 * empties the cart.
 */
module Orders {
  import opened Wrappers
  import opened Shop

  datatype OrderOutcome =
    | EmptyCart
    | InsufficientStock(name: string, available: int, requested: int)
    | InternalError
    | Placed(order: Order)

  /** The stock of line `i`'s product covers the line. */
  predicate Covered(items: seq<CartItem>, products: map<ProductId, Product>, i: nat)
    requires i < |items| && InCatalogue(items, products)
  {
    products[items[i].productId].stock >= items[i].quantity
  }

  // ------------------------------------------------------------ the check

  /** Looks for the first line whose product has fewer units in stock than
      the line asks for. */
  method FindShortage(items: seq<CartItem>, products: map<ProductId, Product>) returns (k: Option<nat>)
    requires InCatalogue(items, products)
    ensures k.None? <==> forall i :: 0 <= i < |items| ==> Covered(items, products, i)
    ensures k.Some? ==>
      && k.value < |items|
      && !Covered(items, products, k.value)
      && forall i :: 0 <= i < k.value ==> Covered(items, products, i)
  {
    var i := 0;
    while i < |items|
      invariant 0 <= i <= |items|
      invariant forall j :: 0 <= j < i ==> Covered(items, products, j)
    {
      if products[items[i].productId].stock < items[i].quantity {
        assert !Covered(items, products, i);
        return Some(i);
      }
      i := i + 1;
    }
    return None;
  }

  // ------------------------------------------------------------ the order

  /** One order line per cart line, with the product's current price frozen
      as the unit price. */
  function OrderLines(items: seq<CartItem>, products: map<ProductId, Product>): (lines: seq<OrderItem>)
    requires InCatalogue(items, products)
    ensures |lines| == |items|
    ensures forall i :: 0 <= i < |items| ==>
      lines[i] == OrderItem(items[i].productId, items[i].quantity, products[items[i].productId].price)
  {
    if items == [] then []
    else
      var last := items[|items| - 1];
      OrderLines(items[..|items| - 1], products) + [OrderItem(last.productId, last.quantity, products[last.productId].price)]
  }

  /** The sum of unit price times quantity over an order's lines. */
  function LinesTotal(lines: seq<OrderItem>): int {
    if lines == [] then 0
    else LinesTotal(lines[..|lines| - 1]) + lines[|lines| - 1].unitPrice * lines[|lines| - 1].quantity
  }

  /** The order's total is the total of its own lines: recomputing it from
      the frozen unit prices gives the total charged. */
  lemma {:induction false} TotalMatchesLines(items: seq<CartItem>, products: map<ProductId, Product>)
    requires InCatalogue(items, products)
    ensures LinesTotal(OrderLines(items, products)) == Value(items, products)
  {
    if items != [] {
      var n := |items| - 1;
      var init := items[..n];
      assert InCatalogue(init, products);
      TotalMatchesLines(init, products);
      var lines := OrderLines(items, products);
      assert lines[..|lines| - 1] == OrderLines(init, products);
    }
  }

  // ------------------------------------------------------------ inventory

  /** A product after `q` of its units are sold. */
  function Sell(p: Product, q: int): (r: Product)
    ensures r.stock + r.soldCount == p.stock + p.soldCount
    ensures r.soldCount - p.soldCount == q
    ensures r.(stock := p.stock, soldCount := p.soldCount) == p
  {
    p.(stock := p.stock - q, soldCount := p.soldCount + q)
  }

  /** Moves each line's units of its product from stock to sold, line by
      line. */
  method ApplySale(shop: Shop, items: seq<CartItem>)
    requires InCatalogue(items, shop.products)
    modifies shop`products
    ensures shop.products.Keys == old(shop.products).Keys
    ensures forall pid :: pid in shop.products ==>
      shop.products[pid] == Sell(old(shop.products)[pid], QuantityOf(items, pid))
  {
    var i := 0;
    while i < |items|
      invariant 0 <= i <= |items|
      invariant shop.products.Keys == old(shop.products).Keys
      invariant forall pid :: pid in shop.products ==>
        shop.products[pid] == Sell(old(shop.products)[pid], QuantityOf(items[..i], pid))
    {
      var line := items[i];
      var p := shop.products[line.productId];
      shop.products := shop.products[line.productId := p.(stock := p.stock - line.quantity,
                                                          soldCount := p.soldCount + line.quantity)];
      forall pid | pid in shop.products
        ensures shop.products[pid] == Sell(old(shop.products)[pid], QuantityOf(items[..i + 1], pid))
      {
        QuantityOfStep(items, i, pid);
      }
      i := i + 1;
    }
    assert items[..i] == items;
  }

  lemma QuantityOfStep(items: seq<CartItem>, i: nat, pid: ProductId)
    requires i < |items|
    ensures QuantityOf(items[..i + 1], pid)
         == QuantityOf(items[..i], pid) + (if items[i].productId == pid then items[i].quantity else 0)
  {
    assert items[..i + 1][..i] == items[..i];
  }

  /** After a sale from a cart with one line per product whose every line is
      covered: a product without a line is unchanged, a product with a line
      loses exactly that line's units from stock and gains them as sold, and
      no stock goes below zero that was not already. */
  lemma SaleEffects(items: seq<CartItem>, products: map<ProductId, Product>, pid: ProductId)
    requires InCatalogue(items, products) && OnePerProduct(items)
    requires forall i :: 0 <= i < |items| ==> Covered(items, products, i)
    requires pid in products
    ensures var after := Sell(products[pid], QuantityOf(items, pid));
      && ((forall i :: 0 <= i < |items| ==> items[i].productId != pid) ==> after == products[pid])
      && (forall i :: 0 <= i < |items| && items[i].productId == pid ==>
            after.stock == products[pid].stock - items[i].quantity
            && after.soldCount == products[pid].soldCount + items[i].quantity)
      && (products[pid].stock >= 0 ==> after.stock >= 0)
      && (PositiveQuantities(items) ==> after.soldCount >= products[pid].soldCount)
  {
    QuantityOfOneLine(items, pid);
    FirstWithIsFirst(items, pid);
    var k := FirstWith(items, pid);
    if k < |items| {
      assert Covered(items, products, k);
      forall i | 0 <= i < |items| && items[i].productId == pid
        ensures i == k
      {
      }
    }
  }

  // ------------------------------------------------------------ placing

  /** The status every new order is given. */
  const Completed: string := "COMPLETED"

  /** Places an order from the cart of `userId`. A missing or empty cart is
      refused; so is a cart with a line its product's stock does not cover,
      reporting the first such line's product name, the stock and the units
      asked for. Otherwise, as one unit of work that either commits whole or
      leaves everything as it was (`commitSucceeds`): the order is recorded
      with the cart's total and one line per cart line at the current
      prices, each line's units move from stock to sold, and the cart is
      emptied and touched. */
  method CreateOrder(shop: Shop, userId: UserId, commitSucceeds: bool, now: Time)
      returns (outcome: OrderOutcome)
    requires shop.Valid()
    modifies shop
    ensures shop.Valid()
    ensures !outcome.Placed? ==> unchanged(shop)
    ensures outcome == EmptyCart <==> old(shop.ItemsOf(userId)) == []
    ensures outcome.InsufficientStock? <==>
      var items := old(shop.ItemsOf(userId));
      items != [] && exists k :: 0 <= k < |items| && !Covered(items, old(shop.products), k)
    ensures outcome.InsufficientStock? ==>
      var items := old(shop.ItemsOf(userId));
      exists k :: 0 <= k < |items|
        && (forall i :: 0 <= i < k ==> Covered(items, old(shop.products), i))
        && !Covered(items, old(shop.products), k)
        && var p := old(shop.products)[items[k].productId];
           outcome == InsufficientStock(p.name, p.stock, items[k].quantity)
    ensures outcome.Placed? <==>
      var items := old(shop.ItemsOf(userId));
      && items != []
      && (forall i :: 0 <= i < |items| ==> Covered(items, old(shop.products), i))
      && commitSucceeds
    ensures outcome.Placed? ==>
      var items := old(shop.ItemsOf(userId));
      var order := Order(userId, Value(items, old(shop.products)), Completed, OrderLines(items, old(shop.products)));
      && outcome.order == order
      && shop.orders == old(shop.orders) + [order]
      && shop.products.Keys == old(shop.products).Keys
      && (forall pid :: pid in shop.products ==>
            shop.products[pid] == Sell(old(shop.products)[pid], QuantityOf(items, pid)))
      && shop.carts == old(shop.carts)[userId := Cart([], now)]
      && shop.stores == old(shop.stores) && shop.favorites == old(shop.favorites)
      && shop.nextItemId == old(shop.nextItemId)
    ensures forall pid :: pid in shop.products ==>
      old(shop.products)[pid].soldCount <= shop.products[pid].soldCount && shop.products[pid].stock >= 0
  {
    var items := shop.ItemsOf(userId);
    if items == [] {
      return EmptyCart;
    }
    var shortage := FindShortage(items, shop.products);
    if shortage.Some? {
      var k := shortage.value;
      assert 0 <= k < |items| && !Covered(items, shop.products, k);
      var p := shop.products[items[k].productId];
      return InsufficientStock(p.name, p.stock, items[k].quantity);
    }
    if !commitSucceeds {
      return InternalError;
    }
    var order := Order(userId, Value(items, shop.products), Completed, OrderLines(items, shop.products));
    shop.orders := shop.orders + [order];
    ApplySale(shop, items);
    forall pid | pid in shop.products
      ensures old(shop.products)[pid].soldCount <= shop.products[pid].soldCount && shop.products[pid].stock >= 0
    {
      SaleEffects(items, old(shop.products), pid);
    }
    shop.carts := shop.carts[userId := Cart([], now)];
    SameCatalogueKeepsCarts(shop.carts, old(shop.products), shop.products, shop.nextItemId);
    outcome := Placed(order);
  }

  /** Cart well-formedness depends only on which products exist. */
  lemma SameCatalogueKeepsCarts(carts: map<UserId, Cart>, products: map<ProductId, Product>,
                                products': map<ProductId, Product>, nextId: nat)
    requires products'.Keys == products.Keys
    requires forall u :: u in carts ==> CartWellFormed(carts[u].items, products, nextId)
    ensures forall u :: u in carts ==> CartWellFormed(carts[u].items, products', nextId)
  {
    forall u | u in carts
      ensures CartWellFormed(carts[u].items, products', nextId)
    {
      var items := carts[u].items;
      assert forall i :: 0 <= i < |items| ==> items[i].productId in products;
    }
  }
}
