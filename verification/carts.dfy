/**
 * The cart: adding units of a product (merging into the product's line when
 * there is one), removing a line of the caller's own cart, and the totals
 * the cart view reports.
 */
module Carts {
  import opened Shop

  // ------------------------------------------------------------ adding

  datatype AddOutcome =
    | BadQuantity
    | ProductNotFound
    | OutOfStock(stock: int)
    | Updated(item: CartItem)
    | Added(item: CartItem)
  {
    predicate Accepted() {
      Updated? || Added?
    }
  }

  /** The lines after adding `q` units of `pid` at time `now`: the line for
      `pid`, when there is one, gets `q` more units and the new time;
      otherwise a new line with id `id` goes at the end. */
  function AddToItems(items: seq<CartItem>, pid: ProductId, q: int, id: nat, now: Time): (r: seq<CartItem>)
    ensures |items| <= |r| <= |items| + 1
    ensures forall i :: 0 <= i < |items| && items[i].productId != pid ==> r[i] == items[i]
    ensures var k := FirstWith(items, pid);
      && k < |r| && r[k].productId == pid && r[k].addedAt == now
      && r[k].quantity == (if k < |items| then items[k].quantity else 0) + q
      && (k == |items| ==> r[k].id == id)
  {
    FirstWithIsFirst(items, pid);
    var k := FirstWith(items, pid);
    if k < |items| then items[k := items[k].(quantity := items[k].quantity + q, addedAt := now)]
    else items + [CartItem(id, pid, q, now)]
  }

  /** Adding never creates a second line for a product: the number of lines
      grows by one exactly when the product had no line. */
  lemma AddMerges(items: seq<CartItem>, pid: ProductId, q: int, id: nat, now: Time)
    ensures var k := FirstWith(items, pid);
      |AddToItems(items, pid, q, id, now)| == if k < |items| then |items| else |items| + 1
    ensures var k := FirstWith(items, pid);
      k < |items| <==> exists i :: 0 <= i < |items| && items[i].productId == pid
  {
    FirstWithIsFirst(items, pid);
  }

  /** Adding keeps a cart well formed, with the line id handed out. */
  lemma AddKeepsWellFormed(items: seq<CartItem>, products: map<ProductId, Product>, pid: ProductId,
                           q: int, id: nat, now: Time)
    requires CartWellFormed(items, products, id) && pid in products && q > 0
    ensures CartWellFormed(AddToItems(items, pid, q, id, now), products, id + 1)
  {
    FirstWithIsFirst(items, pid);
    var k := FirstWith(items, pid);
    var r := AddToItems(items, pid, q, id, now);
    if k == |items| {
      assert forall i :: 0 <= i < |items| ==> r[i] == items[i];
      assert r[|items|].productId == pid;
    }
  }

  /** The cart's units of `pid` grow by `q`, those of every other product are
      unchanged, and the cart's total units and total price grow by `q` and
      by `q` times the price of `pid`. */
  lemma AddSums(items: seq<CartItem>, products: map<ProductId, Product>, pid: ProductId,
                q: int, id: nat, now: Time, other: ProductId)
    requires InCatalogue(items, products) && pid in products
    ensures var r := AddToItems(items, pid, q, id, now);
      && InCatalogue(r, products)
      && QuantityOf(r, pid) == QuantityOf(items, pid) + q
      && (other != pid ==> QuantityOf(r, other) == QuantityOf(items, other))
      && Quantities(r) == Quantities(items) + q
      && Value(r, products) == Value(items, products) + products[pid].price * q
  {
    AddSumsFor(items, products, pid, q, id, now, pid);
    AddSumsFor(items, products, pid, q, id, now, other);
  }

  /** `AddSums` for one product `x` at a time. */
  lemma AddSumsFor(items: seq<CartItem>, products: map<ProductId, Product>, pid: ProductId,
                   q: int, id: nat, now: Time, x: ProductId)
    requires InCatalogue(items, products) && pid in products
    ensures var r := AddToItems(items, pid, q, id, now);
      && InCatalogue(r, products)
      && QuantityOf(r, x) == QuantityOf(items, x) + (if x == pid then q else 0)
      && Quantities(r) == Quantities(items) + q
      && Value(r, products) == Value(items, products) + products[pid].price * q
  {
    var k := FirstWith(items, pid);
    if k < |items| {
      assert AddToItems(items, pid, q, id, now) == items[k := items[k].(quantity := items[k].quantity + q, addedAt := now)];
      FirstWithIsFirst(items, pid);
      MergedSums(items, products, k, q, now, x);
    } else {
      var line := CartItem(id, pid, q, now);
      assert AddToItems(items, pid, q, id, now) == items + [line];
      SumsOne(line, products, x);
      SumsAppend(items, [line], products, x);
    }
  }

  /** `AddSumsFor` when line `k` is the product's line. */
  lemma MergedSums(items: seq<CartItem>, products: map<ProductId, Product>, k: nat, q: int, now: Time, x: ProductId)
    requires InCatalogue(items, products) && k < |items|
    ensures var line := items[k].(quantity := items[k].quantity + q, addedAt := now);
      var r := items[k := line];
      var pid := items[k].productId;
      && InCatalogue(r, products)
      && QuantityOf(r, x) == QuantityOf(items, x) + (if x == pid then q else 0)
      && Quantities(r) == Quantities(items) + q
      && Value(r, products) == Value(items, products) + products[pid].price * q
  {
    var line := items[k].(quantity := items[k].quantity + q, addedAt := now);
    ReplaceLineSums(items, k, line, products, x);
    SumsOne(items[k], products, x);
    SumsOne(line, products, x);
    MulAdd(products[items[k].productId].price, items[k].quantity, q);
  }

  /** Replacing line `k` changes each sum by the difference between the new
      line's share and the old one's. */
  lemma ReplaceLineSums(items: seq<CartItem>, k: nat, line: CartItem, products: map<ProductId, Product>, pid: ProductId)
    requires k < |items| && InCatalogue(items, products) && line.productId in products
    ensures InCatalogue(items[k := line], products)
    ensures Quantities(items[k := line]) == Quantities(items) - Quantities([items[k]]) + Quantities([line])
    ensures Value(items[k := line], products) == Value(items, products) - Value([items[k]], products) + Value([line], products)
    ensures QuantityOf(items[k := line], pid) == QuantityOf(items, pid) - QuantityOf([items[k]], pid) + QuantityOf([line], pid)
  {
    var r := items[k := line];
    assert InCatalogue(r, products) by {
      forall i | 0 <= i < |r| ensures r[i].productId in products {
        if i != k {
          assert r[i] == items[i];
        }
      }
    }
    SumsSplit(items, k, products, pid);
    SumsSplit(r, k, products, pid);
    assert r[..k] == items[..k] && r[k + 1..] == items[k + 1..];
  }

  /** The sums of a cart are those of the lines before `k`, line `k`, and
      the lines after it. */
  lemma SumsSplit(items: seq<CartItem>, k: nat, products: map<ProductId, Product>, pid: ProductId)
    requires k < |items| && InCatalogue(items, products)
    ensures InCatalogue(items[..k], products) && InCatalogue(items[k + 1..], products)
    ensures items[k].productId in products
    ensures Quantities(items) == Quantities(items[..k]) + Quantities([items[k]]) + Quantities(items[k + 1..])
    ensures Value(items, products) == Value(items[..k], products) + Value([items[k]], products) + Value(items[k + 1..], products)
    ensures QuantityOf(items, pid) == QuantityOf(items[..k], pid) + QuantityOf([items[k]], pid) + QuantityOf(items[k + 1..], pid)
  {
    assert items == items[..k] + [items[k]] + items[k + 1..];
    assert InCatalogue([items[k]], products);
    SumsAppend(items[..k], [items[k]], products, pid);
    SumsAppend(items[..k] + [items[k]], items[k + 1..], products, pid);
  }

  lemma MulAdd(p: int, a: int, b: int)
    ensures p * (a + b) == p * a + p * b
  {
  }

  /** Adds `quantity` units of `pid` to the cart of `userId`. Refuses a
      quantity that is not positive, a product that is not available, and a
      quantity above the product's stock (only the added units are compared,
      not the units already in the cart), changing nothing. Otherwise creates
      an empty cart for a user who has none, then merges the units into the
      product's line or appends a new line. */
  method AddCartItem(shop: Shop, userId: UserId, pid: ProductId, quantity: int, now: Time)
      returns (outcome: AddOutcome)
    requires shop.Valid()
    modifies shop
    ensures shop.Valid()
    ensures quantity <= 0 ==> outcome == BadQuantity
    ensures quantity > 0 && !old(shop.Available(pid)) ==> outcome == ProductNotFound
    ensures quantity > 0 && old(shop.Available(pid)) && old(shop.products[pid].stock) < quantity
      ==> outcome == OutOfStock(old(shop.products[pid].stock))
    ensures outcome.Accepted() <==>
      quantity > 0 && old(shop.Available(pid)) && old(shop.products[pid].stock) >= quantity
    ensures !outcome.Accepted() ==> unchanged(shop)
    ensures outcome.Accepted() ==>
      var before := old(shop.ItemsOf(userId));
      var k := FirstWith(before, pid);
      && shop.carts == old(shop.carts)[userId := Cart(
           AddToItems(before, pid, quantity, old(shop.nextItemId), now),
           if userId in old(shop.carts) then old(shop.carts[userId].updatedAt) else now)]
      && shop.products == old(shop.products) && shop.stores == old(shop.stores)
      && shop.orders == old(shop.orders) && shop.favorites == old(shop.favorites)
      && (outcome.Updated? <==> k < |before|)
      && (outcome.Updated? ==>
            outcome.item == before[k].(quantity := before[k].quantity + quantity, addedAt := now)
            && shop.nextItemId == old(shop.nextItemId))
      && (outcome.Added? ==>
            outcome.item == CartItem(old(shop.nextItemId), pid, quantity, now)
            && shop.nextItemId == old(shop.nextItemId) + 1)
  {
    if quantity <= 0 {
      return BadQuantity;
    }
    if !shop.Available(pid) {
      return ProductNotFound;
    }
    if shop.products[pid].stock < quantity {
      return OutOfStock(shop.products[pid].stock);
    }
    outcome := PutInCart(shop, userId, pid, quantity, now);
  }

  /** The accepted path of `AddCartItem`: finds or creates the cart of
      `userId`, then merges the units into the line for `pid` or appends a
      new line. */
  method PutInCart(shop: Shop, userId: UserId, pid: ProductId, quantity: int, now: Time)
      returns (outcome: AddOutcome)
    requires shop.Valid() && pid in shop.products && quantity > 0
    modifies shop`carts, shop`nextItemId
    ensures shop.Valid()
    ensures var before := old(shop.ItemsOf(userId));
      var k := FirstWith(before, pid);
      && shop.carts == old(shop.carts)[userId := Cart(
           AddToItems(before, pid, quantity, old(shop.nextItemId), now),
           if userId in old(shop.carts) then old(shop.carts[userId].updatedAt) else now)]
      && (outcome.Updated? <==> k < |before|)
      && (outcome.Updated? ==>
            outcome.item == before[k].(quantity := before[k].quantity + quantity, addedAt := now)
            && shop.nextItemId == old(shop.nextItemId))
      && (outcome.Added? ==>
            outcome.item == CartItem(old(shop.nextItemId), pid, quantity, now)
            && shop.nextItemId == old(shop.nextItemId) + 1)
      && outcome.Accepted()
  {
    FindOrCreateCart(shop, userId, now);
    outcome := MergeLine(shop, userId, pid, quantity, now);
  }

  /** Gives `userId` an empty cart, made at `now`, when the user has none. */
  method FindOrCreateCart(shop: Shop, userId: UserId, now: Time)
    requires shop.Valid()
    modifies shop`carts
    ensures shop.Valid()
    ensures shop.carts == if userId in old(shop.carts) then old(shop.carts) else old(shop.carts)[userId := Cart([], now)]
  {
    if userId !in shop.carts {
      shop.carts := shop.carts[userId := Cart([], now)];
    }
  }

  /** Merges `quantity` units of `pid` into the existing cart of `userId`. */
  method MergeLine(shop: Shop, userId: UserId, pid: ProductId, quantity: int, now: Time)
      returns (outcome: AddOutcome)
    requires shop.Valid() && pid in shop.products && userId in shop.carts && quantity > 0
    modifies shop`carts, shop`nextItemId
    ensures shop.Valid()
    ensures var before := old(shop.carts[userId]);
      var k := FirstWith(before.items, pid);
      && shop.carts == old(shop.carts)[userId := before.(items := AddToItems(before.items, pid, quantity, old(shop.nextItemId), now))]
      && (outcome.Updated? <==> k < |before.items|)
      && (outcome.Updated? ==>
            outcome.item == before.items[k].(quantity := before.items[k].quantity + quantity, addedAt := now)
            && shop.nextItemId == old(shop.nextItemId))
      && (outcome.Added? ==>
            outcome.item == CartItem(old(shop.nextItemId), pid, quantity, now)
            && shop.nextItemId == old(shop.nextItemId) + 1)
      && outcome.Accepted()
  {
    var cart := shop.carts[userId];
    var items := cart.items;
    var id := shop.nextItemId;
    var k := FirstWith(items, pid);
    AddKeepsWellFormed(items, shop.products, pid, quantity, id, now);
    if k < |items| {
      var item := items[k].(quantity := items[k].quantity + quantity, addedAt := now);
      shop.carts := shop.carts[userId := cart.(items := items[k := item])];
      outcome := Updated(item);
    } else {
      var item := CartItem(id, pid, quantity, now);
      shop.carts := shop.carts[userId := cart.(items := items + [item])];
      shop.nextItemId := id + 1;
      outcome := Added(item);
    }
    GrowNextId(shop.carts, userId, shop.products, id, shop.nextItemId);
  }

  /** Raising the next id keeps every other cart well formed. */
  lemma GrowNextId(carts: map<UserId, Cart>, userId: UserId, products: map<ProductId, Product>, id: nat, id': nat)
    requires id <= id'
    requires forall u :: u in carts && u != userId ==> CartWellFormed(carts[u].items, products, id)
    ensures forall u :: u in carts && u != userId ==> CartWellFormed(carts[u].items, products, id')
  {
  }

  // ------------------------------------------------------------ removing

  datatype RemoveOutcome = ItemNotFound | Removed(itemId: nat)

  /** The index of the first line with id `id`, or `|items|` when there is
      none. */
  function IndexOfId(items: seq<CartItem>, id: nat): (k: nat)
    ensures k <= |items|
    ensures forall i :: 0 <= i < k ==> items[i].id != id
    ensures k < |items| ==> items[k].id == id
  {
    if items == [] then 0
    else if items[0].id == id then 0
    else 1 + IndexOfId(items[1..], id)
  }

  /** The lines without line `k`, the others in their order. */
  function Without(items: seq<CartItem>, k: nat): (r: seq<CartItem>)
    requires k < |items|
    ensures |r| == |items| - 1
    ensures forall i :: 0 <= i < |r| ==> r[i] == if i < k then items[i] else items[i + 1]
  {
    items[..k] + items[k + 1..]
  }

  /** Removing a line keeps the cart well formed and leaves no line with its
      id, as ids are distinct. */
  lemma RemoveKeepsWellFormed(items: seq<CartItem>, products: map<ProductId, Product>, nextId: nat, k: nat)
    requires CartWellFormed(items, products, nextId) && k < |items|
    ensures var r := Without(items, k);
      && CartWellFormed(r, products, nextId)
      && (forall i :: 0 <= i < |r| ==> r[i].id != items[k].id)
      && |r| == |items| - 1
  {
    var r := Without(items, k);
    forall i | 0 <= i < |r|
      ensures r[i] == if i < k then items[i] else items[i + 1]
    {
    }
  }

  /** Removing a line lowers the cart's units of its product, its total
      units and its total price by that line's share. */
  lemma RemoveSums(items: seq<CartItem>, products: map<ProductId, Product>, k: nat, pid: ProductId)
    requires InCatalogue(items, products) && k < |items|
    ensures var r := Without(items, k);
      && InCatalogue(r, products)
      && QuantityOf(r, pid) == QuantityOf(items, pid) - (if items[k].productId == pid then items[k].quantity else 0)
      && Quantities(r) == Quantities(items) - items[k].quantity
      && Value(r, products) == Value(items, products) - products[items[k].productId].price * items[k].quantity
  {
    SumsSplit(items, k, products, pid);
    SumsAppend(items[..k], items[k + 1..], products, pid);
    SumsOne(items[k], products, pid);
  }

  /** Deletes line `itemId` when it is in the cart of `userId` and touches
      the cart's time; a line that is missing or belongs to another user's
      cart is not found and nothing changes. */
  method RemoveCartItem(shop: Shop, userId: UserId, itemId: nat, now: Time)
      returns (outcome: RemoveOutcome)
    requires shop.Valid()
    modifies shop`carts
    ensures shop.Valid()
    ensures outcome.Removed? <==>
      exists i :: 0 <= i < |old(shop.ItemsOf(userId))| && old(shop.ItemsOf(userId))[i].id == itemId
    ensures outcome == ItemNotFound ==> shop.carts == old(shop.carts)
    ensures outcome.Removed? ==>
      var before := old(shop.ItemsOf(userId));
      && outcome.itemId == itemId
      && shop.carts == old(shop.carts)[userId := Cart(Without(before, IndexOfId(before, itemId)), now)]
  {
    var items := shop.ItemsOf(userId);
    var k := IndexOfId(items, itemId);
    if k == |items| {
      return ItemNotFound;
    }
    RemoveKeepsWellFormed(items, shop.products, shop.nextItemId, k);
    shop.carts := shop.carts[userId := Cart(Without(items, k), now)];
    outcome := Removed(itemId);
  }

  // ------------------------------------------------------------ the view

  /** What the cart endpoint reports: whether the user has a cart, its
      lines, the total units and the total price. */
  datatype CartView = CartView(found: bool, items: seq<CartItem>, totalItems: int, totalPrice: int)

  function GetCart(shop: Shop, userId: UserId): (view: CartView)
    requires shop.Valid()
    reads shop
    ensures !view.found ==> view.items == [] && view.totalItems == 0 && view.totalPrice == 0
    ensures view.found <==> userId in shop.carts
    ensures view.items == shop.ItemsOf(userId)
    ensures view.found ==> InCatalogue(view.items, shop.products)
    ensures view.found ==>
      view.totalItems == Quantities(view.items) && view.totalPrice == Value(view.items, shop.products)
  {
    if userId !in shop.carts then CartView(false, [], 0, 0)
    else
      var items := shop.carts[userId].items;
      CartView(true, items, Quantities(items), Value(items, shop.products))
  }

  /** In a cart with one line per product the total units are the units of
      each product's line: adding `q` units of `pid` raises the view's total
      units by `q` and its total price by `q` times the price. */
  lemma AddRaisesTotals(shop: Shop, userId: UserId, items: seq<CartItem>, pid: ProductId, q: int, id: nat, now: Time)
    requires shop.Valid() && pid in shop.products
    requires userId in shop.carts && shop.carts[userId].items == AddToItems(items, pid, q, id, now)
    requires InCatalogue(items, shop.products)
    ensures GetCart(shop, userId).totalItems == Quantities(items) + q
    ensures GetCart(shop, userId).totalPrice == Value(items, shop.products) + shop.products[pid].price * q
  {
    AddSums(items, shop.products, pid, q, id, now, pid);
  }

  /** Removing line `k` lowers the view's total units by the line's units
      and its total price by the line's price. */
  lemma RemoveLowersTotals(shop: Shop, userId: UserId, items: seq<CartItem>, k: nat)
    requires shop.Valid() && k < |items| && InCatalogue(items, shop.products)
    requires userId in shop.carts && shop.carts[userId].items == Without(items, k)
    ensures GetCart(shop, userId).totalItems == Quantities(items) - items[k].quantity
    ensures GetCart(shop, userId).totalPrice
         == Value(items, shop.products) - shop.products[items[k].productId].price * items[k].quantity
  {
    RemoveSums(items, shop.products, k, items[k].productId);
  }
}
