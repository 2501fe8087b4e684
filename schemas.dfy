/**
 * Request validators and response shapes: `ProductAdd`, `Item`, `OrderAdd`,
 * `OrderStatusUpdate` as validity predicates and parsers, `ProductRead`,
 * `OrderRead`, `OrderItemRead` as datatypes.
 */
module Schemas {
  import opened Outcomes
  import opened Entities

  /** `ProductAdd` carries exactly the fields of a product row, so a product value stands for it. */
  type ProductAdd = Product

  /** One requested line of an order: a product name and a quantity. */
  datatype Item = Item(name: string, amount: int)

  /** An order request; `status` is `None` when the client omitted it. */
  datatype OrderAdd = OrderAdd(items: seq<Item>, status: Option<Status>)

  datatype ProductRead = ProductRead(id: int, product: Product)

  datatype OrderItemRead = OrderItemRead(productId: int, amount: int)

  datatype OrderRead = OrderRead(id: int, status: Status, created: Timestamp, items: seq<OrderItemRead>)

  predicate ValidName(name: string) {
    1 <= |name| <= NameMaxLength
  }

  /** The field constraints of `ProductAdd`. */
  predicate ValidProductAdd(p: ProductAdd) {
    && ValidName(p.name)
    && (p.description.Some? ==> |p.description.value| <= DescriptionMaxLength)
    && p.price > 0.0
    && p.inStock >= 0
  }

  /** The field constraints of `Item`. */
  predicate ValidItem(item: Item) {
    ValidName(item.name) && item.amount > 0
  }

  /** `OrderAdd` validates each item and puts no bound on their number. */
  predicate ValidOrderAdd(order: OrderAdd) {
    forall i :: 0 <= i < |order.items| ==> ValidItem(order.items[i])
  }

  /** The status an order is created with: the requested one, PENDING when omitted. */
  function StatusOrDefault(requested: Option<Status>): Status {
    if requested.Some? then requested.value else Pending
  }

  /** The wire value of each status. */
  function StatusValue(s: Status): string {
    match s
    case Pending => "pending"
    case Sent => "sent"
    case Delivered => "delivered"
  }

  /**
   * `OrderStatusUpdate`: accepts a string iff it is the value of one of the
   * three statuses, and then yields that status.
   */
  function ParseStatus(text: string): (r: Option<Status>)
    ensures r.Some? ==> StatusValue(r.value) == text
    ensures r.None? ==> forall s :: StatusValue(s) != text
  {
    if text == "pending" then Some(Pending)
    else if text == "sent" then Some(Sent)
    else if text == "delivered" then Some(Delivered)
    else None
  }

  /** Every status survives the trip to its wire value and back. */
  lemma StatusRoundTrip(s: Status)
    ensures ParseStatus(StatusValue(s)) == Some(s)
  {
    match s
    case Pending =>
    case Sent =>
    case Delivered =>
  }

  /** A validated `ProductAdd` whose stock fits the SMALLINT column satisfies every product-table constraint. */
  lemma ValidatedProductFitsTable(p: ProductAdd)
    requires ValidProductAdd(p) && p.inStock <= SmallIntMax
    ensures ProductFitsTable(p)
  {
  }

  /**
   * The validator bounds `in_stock` from below only: it admits a stock that
   * the SMALLINT column cannot hold.
   */
  lemma ValidatorAdmitsOversizedStock()
    ensures exists p :: ValidProductAdd(p) && !ProductFitsTable(p)
  {
    var p := Product("widget", None, 1.0, SmallIntMax + 1);
    assert ValidProductAdd(p) && !ProductFitsTable(p);
  }
}
