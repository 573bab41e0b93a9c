/**
 * The store's catalogue, carts, orders and favourites, as the database holds
 * them, and the sums over cart lines that the cart view and the order share.
 */
module Shop {
  type UserId = string
  type ProductId = string
  type StoreRef = string
  /** An opaque timestamp (`new Date()`). */
  type Time = nat

  /** A catalogue product; `price` is in minor currency units. */
  datatype Product = Product(
    name: string,
    price: int,
    stock: int,
    soldCount: int,
    isVisible: bool,
    storeId: StoreRef)

  datatype Store = Store(name: string, isActive: bool)

  /** One line of a cart. */
  datatype CartItem = CartItem(id: nat, productId: ProductId, quantity: int, addedAt: Time)

  /** The cart of one user. */
  datatype Cart = Cart(items: seq<CartItem>, updatedAt: Time)

  /** One line of an order, with the price the product had when it was
      ordered. */
  datatype OrderItem = OrderItem(productId: ProductId, quantity: int, unitPrice: int)

  datatype Order = Order(userId: UserId, total: int, status: string, items: seq<OrderItem>)

  datatype Favorite = Favorite(userId: UserId, productId: ProductId)

  /** No two lines of a cart are for the same product. */
  predicate OnePerProduct(items: seq<CartItem>) {
    forall i, j :: 0 <= i < j < |items| ==> items[i].productId != items[j].productId
  }

  /** No two lines of a cart share an id. */
  predicate DistinctIds(items: seq<CartItem>) {
    forall i, j :: 0 <= i < j < |items| ==> items[i].id != items[j].id
  }

  /** Every line names a product of the catalogue. */
  predicate InCatalogue(items: seq<CartItem>, products: map<ProductId, Product>) {
    forall i :: 0 <= i < |items| ==> items[i].productId in products
  }

  /** Every line holds at least one unit. */
  predicate PositiveQuantities(items: seq<CartItem>) {
    forall i :: 0 <= i < |items| ==> items[i].quantity > 0
  }

  /** What the database keeps true of a cart: its lines name existing
      products, each holds at least one unit, one line per product, and the
      line ids are distinct and below the next id to hand out. */
  predicate CartWellFormed(items: seq<CartItem>, products: map<ProductId, Product>, nextId: nat) {
    && InCatalogue(items, products)
    && PositiveQuantities(items)
    && OnePerProduct(items)
    && DistinctIds(items)
    && (forall i :: 0 <= i < |items| ==> items[i].id < nextId)
  }

  /** The database. */
  class Shop {
    var products: map<ProductId, Product>
    var stores: map<StoreRef, Store>
    var carts: map<UserId, Cart>
    var orders: seq<Order>
    var favorites: set<Favorite>
    /** The id the next new cart line receives. */
    var nextItemId: nat

    /** An empty database. */
    constructor ()
      ensures products == map[] && stores == map[] && carts == map[]
      ensures orders == [] && favorites == {} && nextItemId == 0
      ensures Valid()
    {
      products := map[];
      stores := map[];
      carts := map[];
      orders := [];
      favorites := {};
      nextItemId := 0;
    }

    /** Every cart is well formed, and no product has negative stock or a
        negative sold count. */
    ghost predicate Valid()
      reads this
    {
      && (forall u :: u in carts ==> CartWellFormed(carts[u].items, products, nextItemId))
      && (forall pid :: pid in products ==> products[pid].stock >= 0 && products[pid].soldCount >= 0)
    }

    /** A product can be bought or favourited: it exists, is visible, and
        its store exists and is active. */
    predicate Available(pid: ProductId)
      reads this
      ensures Available(pid) ==> pid in products && products[pid].storeId in stores
    {
      && pid in products
      && products[pid].isVisible
      && products[pid].storeId in stores
      && stores[products[pid].storeId].isActive
    }

    /** The lines of the cart of `userId`; a user without a cart has none. */
    function ItemsOf(userId: UserId): seq<CartItem>
      reads this
    {
      if userId in carts then carts[userId].items else []
    }
  }

  // ------------------------------------------------------------ sums

  /** The number of units over all lines. */
  function Quantities(items: seq<CartItem>): (total: int)
    ensures (forall i :: 0 <= i < |items| ==> items[i].quantity > 0) ==> total >= |items|
  {
    if items == [] then 0
    else Quantities(items[..|items| - 1]) + items[|items| - 1].quantity
  }

  /** The price of all lines at the catalogue's current prices. */
  function Value(items: seq<CartItem>, products: map<ProductId, Product>): (total: int)
    requires InCatalogue(items, products)
    ensures (forall i :: 0 <= i < |items| ==> items[i].quantity >= 0 && products[items[i].productId].price >= 0)
      ==> total >= 0
  {
    if items == [] then 0
    else
      var last := items[|items| - 1];
      Value(items[..|items| - 1], products) + products[last.productId].price * last.quantity
  }

  /** The units of product `pid` over all lines. */
  function QuantityOf(items: seq<CartItem>, pid: ProductId): int {
    if items == [] then 0
    else
      var last := items[|items| - 1];
      QuantityOf(items[..|items| - 1], pid) + (if last.productId == pid then last.quantity else 0)
  }

  /** The sums of a concatenation are the sums of its parts. */
  lemma {:induction false} SumsAppend(a: seq<CartItem>, b: seq<CartItem>, products: map<ProductId, Product>, pid: ProductId)
    requires InCatalogue(a, products) && InCatalogue(b, products)
    ensures InCatalogue(a + b, products)
    ensures Quantities(a + b) == Quantities(a) + Quantities(b)
    ensures Value(a + b, products) == Value(a, products) + Value(b, products)
    ensures QuantityOf(a + b, pid) == QuantityOf(a, pid) + QuantityOf(b, pid)
  {
    if b == [] {
      assert a + b == a;
    } else {
      var n := |b| - 1;
      assert (a + b)[..|a + b| - 1] == a + b[..n];
      assert (a + b)[|a + b| - 1] == b[n];
      SumsAppend(a, b[..n], products, pid);
    }
  }

  /** The sums of a single line. */
  lemma SumsOne(item: CartItem, products: map<ProductId, Product>, pid: ProductId)
    requires item.productId in products
    ensures InCatalogue([item], products)
    ensures Quantities([item]) == item.quantity
    ensures Value([item], products) == products[item.productId].price * item.quantity
    ensures QuantityOf([item], pid) == if item.productId == pid then item.quantity else 0
  {
    assert [item][..0] == [];
  }

  /** In a cart with one line per product, the units of `pid` are those of
      its line, or none when it has no line. */
  lemma {:induction false} QuantityOfOneLine(items: seq<CartItem>, pid: ProductId)
    requires OnePerProduct(items)
    ensures var k := FirstWith(items, pid);
      QuantityOf(items, pid) == if k < |items| then items[k].quantity else 0
  {
    if items != [] {
      var n := |items| - 1;
      var init := items[..n];
      var k := FirstWith(items, pid);
      var k' := FirstWith(init, pid);
      assert OnePerProduct(init);
      QuantityOfOneLine(init, pid);
      FirstWithIsFirst(items, pid);
      FirstWithIsFirst(init, pid);
      if items[n].productId == pid {
        assert k == n;
        assert k' == n;
      } else if k < |items| {
        assert init[k].productId == pid;
        assert k' == k;
      } else {
        assert k' == n;
      }
    }
  }

  /** The index of the first line for `pid`, or `|items|` when there is none. */
  function FirstWith(items: seq<CartItem>, pid: ProductId): (k: nat)
    ensures k <= |items|
  {
    if items == [] then 0
    else if items[0].productId == pid then 0
    else 1 + FirstWith(items[1..], pid)
  }

  lemma {:induction false} FirstWithIsFirst(items: seq<CartItem>, pid: ProductId)
    ensures var k := FirstWith(items, pid);
      && (forall i :: 0 <= i < k ==> items[i].productId != pid)
      && (k < |items| <==> exists i :: 0 <= i < |items| && items[i].productId == pid)
      && (k < |items| ==> items[k].productId == pid)
  {
    if items != [] && items[0].productId != pid {
      FirstWithIsFirst(items[1..], pid);
      var k := FirstWith(items, pid);
      forall i | 0 <= i < k ensures items[i].productId != pid {
        if i > 0 {
          assert items[i] == items[1..][i - 1];
        }
      }
      if exists i :: 0 <= i < |items| && items[i].productId == pid {
        var i :| 0 <= i < |items| && items[i].productId == pid;
        assert items[1..][i - 1].productId == pid;
      }
    }
  }
}
