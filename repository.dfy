/**
 * The store behind `ProductRepository` and `OrderRepository`: the product,
 * order and line-item tables with their key counters, and one method per
 * repository operation. Each method is one transaction: it either commits
 * all of its writes or, on an error, leaves every table as it was.
 */
module Repository {
  import opened Outcomes
  import opened Entities
  import opened Schemas
  import opened Placement

  lemma NonEmptyHasElement(s: set<int>)
    requires s != {}
    ensures exists x :: x in s
  {
    if forall y :: y !in s {
      assert false;
    }
  }

  /** The key of the product named `name`: the `WHERE name = ...` query, a scan of the table. */
  method FindByName(catalog: map<int, Product>, name: string) returns (r: Option<int>)
    ensures r.Some? ==> r.value in catalog && catalog[r.value].name == name
    ensures r.None? <==> !NameTaken(catalog, name)
  {
    var unseen := catalog.Keys;
    while unseen != {}
      invariant unseen <= catalog.Keys
      invariant forall k :: k in catalog && k !in unseen ==> catalog[k].name != name
      decreases unseen
    {
      NonEmptyHasElement(unseen);
      var k :| k in unseen;
      if catalog[k].name == name {
        return Some(k);
      }
      unseen := unseen - {k};
    }
    return None;
  }

  function ReadLine(line: OrderItem): OrderItemRead {
    OrderItemRead(line.productId, line.amount)
  }

  /**
   * The items of order `oid`, in table order, as they are read back: every
   * item of the order and nothing else, each as often as it is stored.
   */
  function LinesOf(items: seq<OrderItem>, oid: int): (r: seq<OrderItemRead>)
    ensures |r| <= |items|
    ensures forall x :: x in r ==> exists i :: 0 <= i < |items| && items[i].orderId == oid && ReadLine(items[i]) == x
  {
    if items == [] then []
    else
      var rest := LinesOf(items[1..], oid);
      assert forall x :: x in rest ==> exists i :: 0 <= i < |items| && items[i].orderId == oid && ReadLine(items[i]) == x by {
        forall x | x in rest ensures exists i :: 0 <= i < |items| && items[i].orderId == oid && ReadLine(items[i]) == x {
          var j :| 0 <= j < |items[1..]| && items[1..][j].orderId == oid && ReadLine(items[1..][j]) == x;
          assert items[j + 1] == items[1..][j];
        }
      }
      (if items[0].orderId == oid then [ReadLine(items[0])] else []) + rest
  }

  /** Every item of the order is read back. */
  lemma {:induction false} LinesOfComplete(items: seq<OrderItem>, oid: int)
    ensures forall i :: 0 <= i < |items| && items[i].orderId == oid ==> ReadLine(items[i]) in LinesOf(items, oid)
    decreases |items|
  {
    if items != [] {
      LinesOfComplete(items[1..], oid);
      forall i | 0 < i < |items| && items[i].orderId == oid ensures ReadLine(items[i]) in LinesOf(items, oid) {
        assert items[i] == items[1..][i - 1];
      }
    }
  }

  /** The order's items and the items that survive deleting the order together make up the table. */
  lemma {:induction false} LinesOfCount(items: seq<OrderItem>, oid: int)
    ensures |LinesOf(items, oid)| + |WithoutOrder(items, oid)| == |items|
    decreases |items|
  {
    if items != [] {
      LinesOfCount(items[1..], oid);
    }
  }

  /** Each item of the order is read back exactly as often as it is stored. */
  lemma {:induction false} LinesOfMultiset(items: seq<OrderItem>, oid: int)
    ensures forall p, a :: multiset(LinesOf(items, oid))[OrderItemRead(p, a)] == multiset(items)[OrderItem(oid, p, a)]
    decreases |items|
  {
    if items != [] {
      LinesOfMultiset(items[1..], oid);
      assert items == [items[0]] + items[1..];
    }
  }

  lemma {:induction false} LinesOfAppend(a: seq<OrderItem>, b: seq<OrderItem>, oid: int)
    ensures LinesOf(a + b, oid) == LinesOf(a, oid) + LinesOf(b, oid)
    decreases |a|
  {
    if a != [] {
      assert (a + b)[0] == a[0] && (a + b)[1..] == a[1..] + b;
      LinesOfAppend(a[1..], b, oid);
    } else {
      assert a + b == b;
    }
  }

  lemma {:induction false} LinesOfNone(items: seq<OrderItem>, oid: int)
    requires forall i :: 0 <= i < |items| ==> items[i].orderId != oid
    ensures LinesOf(items, oid) == []
    decreases |items|
  {
    if items != [] {
      LinesOfNone(items[1..], oid);
    }
  }

  lemma {:induction false} LinesOfAll(items: seq<OrderItem>, oid: int)
    requires forall i :: 0 <= i < |items| ==> items[i].orderId == oid
    ensures |LinesOf(items, oid)| == |items|
    ensures forall i :: 0 <= i < |items| ==> LinesOf(items, oid)[i] == ReadLine(items[i])
    decreases |items|
  {
    if items != [] {
      LinesOfAll(items[1..], oid);
      var rest := LinesOf(items[1..], oid);
      assert LinesOf(items, oid) == [ReadLine(items[0])] + rest;
      forall i | 0 <= i < |items| ensures LinesOf(items, oid)[i] == ReadLine(items[i]) {
        if i > 0 {
          assert items[1..][i - 1] == items[i];
        }
      }
    }
  }

  /** The key set of a listing. */
  function Ids<T>(rows: seq<T>, id: T -> int): set<int> {
    set i | 0 <= i < |rows| :: id(rows[i])
  }

  /**
   * The constraints of the three tables and their key sequences: keys below
   * the next sequence value, which never passes the INTEGER range of the
   * keys, rows within their column widths and checks, unique product names,
   * and line items that reference stored rows.
   */
  ghost predicate TablesValid(products: map<int, Product>, orders: map<int, Order>, items: seq<OrderItem>,
                              nextProductId: int, nextOrderId: int)
  {
    && 1 <= nextProductId <= IntegerMax + 1 && 1 <= nextOrderId <= IntegerMax + 1
    && (forall k :: k in products ==> 1 <= k < nextProductId && ProductFitsTable(products[k]))
    && UniqueNames(products)
    && (forall k :: k in orders ==> 1 <= k < nextOrderId)
    && LinesFitTable(items)
    && ItemsReferToRows(orders, products, items)
  }

  /**
   * Committing a successful placement under the next order key keeps the
   * tables valid, and the new order reads back with one item per request.
   */
  lemma CommitPlacement(products: map<int, Product>, orders: map<int, Order>, items: seq<OrderItem>,
                        nextProductId: int, oid: int, requests: seq<Item>, order: Order)
    requires TablesValid(products, orders, items, nextProductId, oid) && oid <= IntegerMax
    requires forall i :: 0 <= i < |requests| ==> ValidItem(requests[i])
    requires Place(products, oid, requests).Ok?
    ensures var placed := Place(products, oid, requests).value;
      && TablesValid(placed.catalog, orders[oid := order], items + placed.lines, nextProductId, oid + 1)
      && |LinesOf(items + placed.lines, oid)| == |requests|
      && forall i :: 0 <= i < |requests| ==>
           && LinesOf(items + placed.lines, oid)[i].amount == requests[i].amount
           && LinesOf(items + placed.lines, oid)[i].productId in placed.catalog
           && placed.catalog[LinesOf(items + placed.lines, oid)[i].productId].name == requests[i].name
  {
    var placed := Place(products, oid, requests).value;
    var lines := placed.lines;
    PlaceFacts(products, oid, requests);
    var all := items + lines;
    assert LinesFitTable(all) by {
      forall i | 0 <= i < |all| ensures ItemFitsTable(all[i]) {
        if i >= |items| {
          assert all[i] == lines[i - |items|];
        }
      }
    }
    assert ItemsReferToRows(orders[oid := order], placed.catalog, all) by {
      forall i | 0 <= i < |all| ensures all[i].orderId in orders[oid := order] && all[i].productId in placed.catalog {
        if i >= |items| {
          assert all[i] == lines[i - |items|];
        }
      }
    }
    assert forall i :: 0 <= i < |items| ==> items[i].orderId != oid;
    LinesOfNone(items, oid);
    LinesOfAll(lines, oid);
    LinesOfAppend(items, lines, oid);
  }

  /** Deleting a product together with the items its foreign key cascades to keeps the tables valid. */
  lemma DeleteProductKeepsTables(products: map<int, Product>, orders: map<int, Order>, items: seq<OrderItem>,
                                 nextProductId: int, nextOrderId: int, id: int)
    requires TablesValid(products, orders, items, nextProductId, nextOrderId)
    ensures TablesValid(products - {id}, orders, WithoutProduct(items, id), nextProductId, nextOrderId)
  {
    DeleteProductKeepsReferences(orders, products, items, id);
    var kept := WithoutProduct(items, id);
    forall i | 0 <= i < |kept| ensures ItemFitsTable(kept[i]) {
      assert kept[i] in kept;
    }
  }

  class Store {
    var products: map<int, Product>
    var orders: map<int, Order>
    var items: seq<OrderItem>
    /** The next value of the product key sequence. */
    var nextProductId: int
    /** The next value of the order key sequence. */
    var nextOrderId: int

    /** What the table declarations guarantee of every committed state. */
    ghost predicate Valid()
      reads this
    {
      TablesValid(products, orders, items, nextProductId, nextOrderId)
    }

    /** Freshly created, empty tables. */
    constructor ()
      ensures Valid()
      ensures products == map[] && orders == map[] && items == []
      ensures nextProductId == 1 && nextOrderId == 1
    {
      products := map[];
      orders := map[];
      items := [];
      nextProductId := 1;
      nextOrderId := 1;
    }

    /**
     * ProductRepository.add_product: inserts the product under a fresh key
     * and returns the key. A stock beyond the SMALLINT column is refused by
     * the database driver, and an exhausted key sequence by the database,
     * with errors the method does not catch; a name already in the catalog
     * violates the unique constraint and is reported as a duplicate.
     */
    method AddProduct(p: ProductAdd) returns (r: Result<int, Error>)
      requires Valid() && ValidProductAdd(p)
      modifies this
      ensures Valid()
      ensures p.inStock > SmallIntMax || old(nextProductId) > IntegerMax ==> r == Err(StorageError)
      ensures p.inStock <= SmallIntMax && old(nextProductId) <= IntegerMax && NameTaken(old(products), p.name) ==>
        r == Err(DuplicateName)
      ensures r.Ok? <==> p.inStock <= SmallIntMax && old(nextProductId) <= IntegerMax && !NameTaken(old(products), p.name)
      ensures r.Err? ==> unchanged(this)
      ensures r.Ok? ==>
        && r.value == old(nextProductId) && r.value !in old(products)
        && products == old(products)[r.value := p]
        && orders == old(orders) && items == old(items)
        && nextProductId == r.value + 1 && nextOrderId == old(nextOrderId)
    {
      if p.inStock > SmallIntMax || nextProductId > IntegerMax {
        return Err(StorageError);
      }
      var clash := FindByName(products, p.name);
      if clash.Some? {
        return Err(DuplicateName);
      }
      ValidatedProductFitsTable(p);
      var id := nextProductId;
      products := products[id := p];
      nextProductId := nextProductId + 1;
      r := Ok(id);
    }

    /**
     * ProductRepository.get_product. An id outside the INTEGER range of the
     * key is refused by the driver when it binds the query parameter.
     */
    function GetProduct(id: int): (r: Result<ProductRead, Error>)
      reads this
      ensures r.Ok? <==> FitsInteger(id) && id in products
      ensures r.Ok? ==> r.value == ProductRead(id, products[id])
      ensures r.Err? ==> r.error == if FitsInteger(id) then ProductNotFound else StorageError
    {
      if !FitsInteger(id) then Err(StorageError)
      else if id in products then Ok(ProductRead(id, products[id]))
      else Err(ProductNotFound)
    }

    /** ProductRepository.get_all: every stored product exactly once, in no particular order. */
    method ListProducts() returns (r: seq<ProductRead>)
      ensures Ids(r, (x: ProductRead) => x.id) == products.Keys
      ensures forall i :: 0 <= i < |r| ==> r[i].id in products && r[i].product == products[r[i].id]
      ensures forall i, j :: 0 <= i < j < |r| ==> r[i].id != r[j].id
    {
      r := [];
      var unseen := products.Keys;
      while unseen != {}
        invariant unseen <= products.Keys
        invariant Ids(r, (x: ProductRead) => x.id) == products.Keys - unseen
        invariant forall i :: 0 <= i < |r| ==> r[i].id in products && r[i].product == products[r[i].id]
        invariant forall i, j :: 0 <= i < j < |r| ==> r[i].id != r[j].id
        decreases unseen
      {
        NonEmptyHasElement(unseen);
        var k :| k in unseen;
        assert k !in Ids(r, (x: ProductRead) => x.id);
        r := r + [ProductRead(k, products[k])];
        assert Ids(r, (x: ProductRead) => x.id) == Ids(r[..|r| - 1], (x: ProductRead) => x.id) + {k} by {
          assert r[..|r| - 1] + [r[|r| - 1]] == r;
        }
        unseen := unseen - {k};
      }
    }

    /**
     * ProductRepository.update_product: overwrites every field of the stored
     * product and returns its key. An id outside the INTEGER range of the
     * key, a stock beyond the SMALLINT column or a name another product
     * carries fails in the driver or the database with an error the method
     * does not catch.
     */
    method UpdateProduct(id: int, p: ProductAdd) returns (r: Result<int, Error>)
      requires Valid() && ValidProductAdd(p)
      modifies this
      ensures Valid()
      ensures !FitsInteger(id) ==> r == Err(StorageError)
      ensures FitsInteger(id) && id !in old(products) ==> r == Err(ProductNotFound)
      ensures id in old(products) && p.inStock > SmallIntMax ==> r == Err(StorageError)
      ensures id in old(products) && p.inStock <= SmallIntMax ==>
        (r.Ok? <==> forall k :: k in old(products) && k != id ==> old(products)[k].name != p.name)
      ensures id in old(products) && r.Err? ==> r.error == StorageError
      ensures r.Err? ==> unchanged(this)
      ensures r.Ok? ==>
        && r.value == id
        && products == old(products)[id := p]
        && orders == old(orders) && items == old(items)
        && nextProductId == old(nextProductId) && nextOrderId == old(nextOrderId)
    {
      if !FitsInteger(id) {
        return Err(StorageError);
      }
      if id !in products {
        return Err(ProductNotFound);
      }
      if p.inStock > SmallIntMax {
        return Err(StorageError);
      }
      var holder := FindByName(products, p.name);
      if holder.Some? && holder.value != id {
        return Err(StorageError);
      }
      ValidatedProductFitsTable(p);
      products := products[id := p];
      r := Ok(id);
    }

    /**
     * ProductRepository.delete_product: removes the product; the foreign key
     * of the line items cascades, so the items that reference it go too while
     * their orders and every other item stay.
     */
    method DeleteProduct(id: int) returns (r: Result<(), Error>)
      requires Valid()
      modifies this
      ensures Valid()
      ensures r.Err? <==> !FitsInteger(id) || id !in old(products)
      ensures r.Err? ==> r.error == (if FitsInteger(id) then ProductNotFound else StorageError) && unchanged(this)
      ensures r.Ok? ==>
        && products == old(products) - {id}
        && items == WithoutProduct(old(items), id)
        && orders == old(orders)
        && nextProductId == old(nextProductId) && nextOrderId == old(nextOrderId)
    {
      if !FitsInteger(id) {
        return Err(StorageError);
      }
      if id !in products {
        return Err(ProductNotFound);
      }
      DeleteProductKeepsTables(products, orders, items, nextProductId, nextOrderId, id);
      products := products - {id};
      items := WithoutProduct(items, id);
      r := Ok(());
    }

    /** The read shape of a stored order: its fields and its items. */
    function OrderView(id: int): OrderRead
      reads this
      requires id in orders
    {
      OrderRead(id, orders[id].status, orders[id].created, LinesOf(items, id))
    }

    /**
     * OrderRepository.get_order: the order with all of its items and no
     * other. An id outside the INTEGER range of the key is refused by the
     * driver when it binds the query parameter.
     */
    function GetOrder(id: int): (r: Result<OrderRead, Error>)
      reads this
      ensures r.Ok? <==> FitsInteger(id) && id in orders
      ensures r.Ok? ==> r.value.id == id && r.value.status == orders[id].status && r.value.created == orders[id].created
      ensures r.Ok? ==> forall x :: x in r.value.items ==>
        exists i :: 0 <= i < |items| && items[i].orderId == id && ReadLine(items[i]) == x
      ensures r.Ok? ==> forall i :: 0 <= i < |items| && items[i].orderId == id ==> ReadLine(items[i]) in r.value.items
      ensures r.Ok? ==> |r.value.items| + |WithoutOrder(items, id)| == |items|
      ensures r.Ok? ==> forall p, a {:trigger multiset(r.value.items)[OrderItemRead(p, a)]} ::
        multiset(r.value.items)[OrderItemRead(p, a)] == multiset(items)[OrderItem(id, p, a)]
      ensures r.Err? ==> r.error == if FitsInteger(id) then OrderNotFound else StorageError
    {
      if !FitsInteger(id) then Err(StorageError)
      else if id in orders then
        LinesOfComplete(items, id);
        LinesOfCount(items, id);
        LinesOfMultiset(items, id);
        Ok(OrderView(id))
      else Err(OrderNotFound)
    }

    /** OrderRepository.get_all: every stored order exactly once, with its items. */
    method ListOrders() returns (r: seq<OrderRead>)
      requires Valid()
      ensures Ids(r, (x: OrderRead) => x.id) == orders.Keys
      ensures forall i :: 0 <= i < |r| ==> r[i].id in orders && GetOrder(r[i].id) == Ok(r[i])
      ensures forall i, j :: 0 <= i < j < |r| ==> r[i].id != r[j].id
    {
      r := [];
      var unseen := orders.Keys;
      while unseen != {}
        invariant unseen <= orders.Keys
        invariant Ids(r, (x: OrderRead) => x.id) == orders.Keys - unseen
        invariant forall i :: 0 <= i < |r| ==> r[i].id in orders && GetOrder(r[i].id) == Ok(r[i])
        invariant forall i, j :: 0 <= i < j < |r| ==> r[i].id != r[j].id
        decreases unseen
      {
        NonEmptyHasElement(unseen);
        var k :| k in unseen;
        assert k !in Ids(r, (x: OrderRead) => x.id);
        r := r + [OrderView(k)];
        assert Ids(r, (x: OrderRead) => x.id) == Ids(r[..|r| - 1], (x: OrderRead) => x.id) + {k} by {
          assert r[..|r| - 1] + [r[|r| - 1]] == r;
        }
        unseen := unseen - {k};
      }
    }

    /**
     * OrderRepository.update_status: sets the status of the stored order to
     * any of the three values, whatever it was; its creation time and its
     * items stay. Returns the order as read back. An id outside the INTEGER
     * range of the key is refused by the driver.
     */
    method UpdateStatus(id: int, status: Status) returns (r: Result<OrderRead, Error>)
      requires Valid()
      modifies this
      ensures Valid()
      ensures r.Err? <==> !FitsInteger(id) || id !in old(orders)
      ensures r.Err? ==> r.error == (if FitsInteger(id) then OrderNotFound else StorageError) && unchanged(this)
      ensures r.Ok? ==>
        && orders == old(orders)[id := old(orders)[id].(status := status)]
        && products == old(products) && items == old(items)
        && nextProductId == old(nextProductId) && nextOrderId == old(nextOrderId)
      ensures r == GetOrder(id)
    {
      if !FitsInteger(id) {
        return Err(StorageError);
      }
      if id !in orders {
        return Err(OrderNotFound);
      }
      orders := orders[id := orders[id].(status := status)];
      r := Ok(OrderView(id));
    }

    /**
     * OrderRepository.add_order: creates an order with the requested status
     * (PENDING when omitted) and walks the requested items in order; each one
     * is looked up by name, checked against the stock left, withdrawn and
     * recorded as a line item. All of it is committed together after the
     * last item; the first unknown name or short stock ends the call with
     * that error and nothing of it is kept. The order row is flushed before
     * the first item, so an exhausted order key sequence fails first, with
     * an error the method does not catch.
     */
    method PlaceOrder(order: OrderAdd, now: Timestamp) returns (r: Result<int, Error>)
      requires Valid() && ValidOrderAdd(order)
      modifies this
      ensures Valid()
      ensures old(nextOrderId) > IntegerMax ==> r == Err(StorageError)
      ensures old(nextOrderId) <= IntegerMax ==> var placed := Place(old(products), old(nextOrderId), order.items);
        && (r.Ok? <==> placed.Ok?)
        && (r.Err? ==> r.error == placed.error)
        && (r.Ok? ==> products == placed.value.catalog && items == old(items) + placed.value.lines)
      ensures r.Ok? <==>
        old(nextOrderId) <= IntegerMax && AllKnown(old(products), order.items) && DemandCovered(old(products), order.items)
      ensures order.items == [] ==> (r.Ok? <==> old(nextOrderId) <= IntegerMax)
      ensures r.Err? ==> unchanged(this)
      ensures r.Ok? ==>
        && r.value == old(nextOrderId) && r.value !in old(orders)
        && orders == old(orders)[r.value := Order(now, StatusOrDefault(order.status))]
        && nextOrderId == old(nextOrderId) + 1 && nextProductId == old(nextProductId)
      ensures r.Ok? ==> products.Keys == old(products).Keys && forall k :: k in products ==>
        && products[k] == old(products)[k].(inStock := products[k].inStock)
        && products[k].inStock == old(products)[k].inStock - Demand(order.items, old(products)[k].name)
        && 0 <= products[k].inStock
      ensures r.Ok? ==>
        && GetOrder(r.value).Ok?
        && GetOrder(r.value).value.status == StatusOrDefault(order.status)
        && |GetOrder(r.value).value.items| == |order.items|
        && forall i :: 0 <= i < |order.items| ==>
             && GetOrder(r.value).value.items[i].amount == order.items[i].amount
             && GetOrder(r.value).value.items[i].productId in products
             && products[GetOrder(r.value).value.items[i].productId].name == order.items[i].name
    {
      if nextOrderId > IntegerMax {
        return Err(StorageError);
      }
      var oid := nextOrderId;
      PlaceSucceedsIff(products, oid, order.items);
      var placed := RunPlacement(products, oid, order.items);
      if placed.Err? {
        return Err(placed.error);
      }
      var created := Order(now, StatusOrDefault(order.status));
      PlaceFacts(products, oid, order.items);
      CommitPlacement(products, orders, items, nextProductId, oid, order.items, created);
      // commit
      products := placed.value.catalog;
      orders := orders[oid := created];
      items := items + placed.value.lines;
      nextOrderId := nextOrderId + 1;
      r := Ok(oid);
    }
  }

  /**
   * The loop of add_order, run on a working copy of the catalog: each
   * request is looked up by name, checked against the stock left in the
   * copy, withdrawn from it and recorded as a line item; the first failure
   * is returned at once.
   */
  method RunPlacement(catalog: map<int, Product>, orderId: int, requests: seq<Item>) returns (r: Result<Placed, Error>)
    requires UniqueNames(catalog)
    ensures r == Place(catalog, orderId, requests)
  {
    var work := catalog;
    var lines: seq<OrderItem> := [];
    var i := 0;
    assert requests[0..] == requests;
    PrefixedEmpty(Place(catalog, orderId, requests));
    while i < |requests|
      invariant 0 <= i <= |requests|
      invariant SameRows(catalog, work) && UniqueNames(work)
      invariant Place(catalog, orderId, requests) == Prefixed(lines, Place(work, orderId, requests[i..]))
    {
      var item := requests[i];
      assert requests[i..][0] == item && requests[i..][1..] == requests[i + 1..];
      var found := FindByName(work, item.name);
      if found.None? {
        return Err(UnknownProduct(item.name));
      }
      var k := found.value;
      LookupUnique(work, item.name, k);
      if work[k].inStock < item.amount {
        return Err(InsufficientStock(item.name, work[k].inStock));
      }
      var next := Withdraw(work, k, item.amount);
      var line := OrderItem(orderId, k, item.amount);
      assert Place(work, orderId, requests[i..]) == Prefixed([line], Place(next, orderId, requests[i + 1..]));
      PrefixedTwice(lines, [line], Place(next, orderId, requests[i + 1..]));
      assert SameRows(work, next);
      SameRowsUnique(work, next);
      work := next;
      lines := lines + [line];
      i := i + 1;
    }
    assert requests[i..] == [];
    assert lines + [] == lines;
    return Ok(Placed(work, lines));
  }
}
