/**
 * The three tables of the store (product, order, orderitem) as values, with
 * the constraints their declarations put on every stored row and the cascade
 * rules of their foreign keys.
 */
module Entities {
  import opened Outcomes

  /** Largest value of a SMALLINT column (`in_stock`). */
  const SmallIntMax := 32767
  /** Smallest value of an INTEGER column (the keys). */
  const IntegerMin := -2147483648
  /** Largest value of an INTEGER column (`amount` and the keys). */
  const IntegerMax := 2147483647
  /** Declared width of `name`, String(40). */
  const NameMaxLength := 40
  /** Declared width of `description`, String(300). */
  const DescriptionMaxLength := 300

  /** A value the driver can bind to an INTEGER parameter, such as a key in a `WHERE id = ...` query. */
  predicate FitsInteger(n: int) {
    IntegerMin <= n <= IntegerMax
  }

  /** The order status enum; the column is NOT NULL, so no other value exists. */
  datatype Status = Pending | Sent | Delivered

  /** The `created` column: filled from the database clock, never changed afterwards. */
  type Timestamp = int

  /** A product row without its key; `price` is a floating-point column, modelled as a real. */
  datatype Product = Product(name: string, description: Option<string>, price: real, inStock: int)

  /** An order row without its key. */
  datatype Order = Order(created: Timestamp, status: Status)

  /** A line-item row; its own key is its position in the table. */
  datatype OrderItem = OrderItem(orderId: int, productId: int, amount: int)

  /** Column widths and check constraints of the product table. */
  predicate ProductFitsTable(p: Product) {
    && |p.name| <= NameMaxLength
    && (p.description.Some? ==> |p.description.value| <= DescriptionMaxLength)
    && p.price > 0.0
    && 0 <= p.inStock <= SmallIntMax
  }

  /** Column width and check constraint of the line-item table. */
  predicate ItemFitsTable(l: OrderItem) {
    0 < l.amount <= IntegerMax
  }

  /** The unique constraint on product names. */
  predicate UniqueNames(catalog: map<int, Product>) {
    forall j, k :: j in catalog && k in catalog && catalog[j].name == catalog[k].name ==> j == k
  }

  /** Some stored product carries `name`. */
  predicate NameTaken(catalog: map<int, Product>, name: string) {
    exists k :: k in catalog && catalog[k].name == name
  }

  /**
   * The line items that survive deleting product `pid`: the foreign key
   * `product_id` cascades, so exactly the items that reference `pid` go,
   * each other item stays, as often as before.
   */
  function WithoutProduct(items: seq<OrderItem>, pid: int): (r: seq<OrderItem>)
    ensures forall x :: x in r <==> x in items && x.productId != pid
    ensures forall x :: multiset(r)[x] == if x.productId == pid then 0 else multiset(items)[x]
  {
    if items == [] then []
    else
      assert items == [items[0]] + items[1..];
      (if items[0].productId == pid then [] else [items[0]]) + WithoutProduct(items[1..], pid)
  }

  /**
   * The line items that survive deleting order `oid`: the relationship
   * cascades ('all, delete-orphan') and so does the foreign key `order_id`,
   * so exactly that order's items go and every other item stays.
   */
  function WithoutOrder(items: seq<OrderItem>, oid: int): (r: seq<OrderItem>)
    ensures forall x :: x in r <==> x in items && x.orderId != oid
    ensures forall x :: multiset(r)[x] == if x.orderId == oid then 0 else multiset(items)[x]
  {
    if items == [] then []
    else
      assert items == [items[0]] + items[1..];
      (if items[0].orderId == oid then [] else [items[0]]) + WithoutOrder(items[1..], oid)
  }

  /** Referential integrity: every line item references a stored order and a stored product. */
  predicate ItemsReferToRows(orders: map<int, Order>, catalog: map<int, Product>, items: seq<OrderItem>) {
    forall i :: 0 <= i < |items| ==> items[i].orderId in orders && items[i].productId in catalog
  }

  /** Deleting an order together with its cascaded items keeps referential integrity. */
  lemma DeleteOrderKeepsReferences(orders: map<int, Order>, catalog: map<int, Product>, items: seq<OrderItem>, oid: int)
    requires ItemsReferToRows(orders, catalog, items)
    ensures ItemsReferToRows(orders - {oid}, catalog, WithoutOrder(items, oid))
  {
    var rest := WithoutOrder(items, oid);
    forall i | 0 <= i < |rest|
      ensures rest[i].orderId in orders - {oid} && rest[i].productId in catalog
    {
      assert rest[i] in rest;
      var j :| 0 <= j < |items| && items[j] == rest[i];
    }
  }

  /** Deleting a product together with its cascaded items keeps referential integrity. */
  lemma DeleteProductKeepsReferences(orders: map<int, Order>, catalog: map<int, Product>, items: seq<OrderItem>, pid: int)
    requires ItemsReferToRows(orders, catalog, items)
    ensures ItemsReferToRows(orders, catalog - {pid}, WithoutProduct(items, pid))
  {
    var rest := WithoutProduct(items, pid);
    forall i | 0 <= i < |rest|
      ensures rest[i].orderId in orders && rest[i].productId in catalog - {pid}
    {
      assert rest[i] in rest;
      var j :| 0 <= j < |items| && items[j] == rest[i];
    }
  }
}
