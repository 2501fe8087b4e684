# Order store: catalog, orders and order placement

This project models the storage core of an order-management API. A catalog of
products has a name, an optional description, a price and a stock count. Orders
have a status and a creation time, and own line items that each reference a
product and carry an amount. The heart of the model is order placement
(`OrderRepository.add_order`). It creates an order and walks the requested
`(name, amount)` items in request order. For each item it looks the product up
by exact name, refuses an unknown name (404) and refuses an amount above the
stock still left (400, reporting that stock). Otherwise it withdraws the amount
and records a line item. Everything is committed together after the last item;
on a failure nothing is committed.

The model has five modules:

- `Outcomes` (outcomes.dfy): `Option`, `Result`, and the domain errors the
  repository raises, with their HTTP status codes.
- `Entities` (entities.dfy): the product, order and line-item rows. It also holds
  the column widths and check constraints of their tables, the unique product
  name, and the cascade rules of the two foreign keys.
- `Schemas` (schemas.dfy): `ProductAdd`, `Item`,
  `OrderAdd` (status defaults to PENDING) and `OrderStatusUpdate` as predicates
  and a parser; `ProductRead`, `OrderRead` and `OrderItemRead` as datatypes.
- `Placement` (placement.dfy): `Place`, a function that gives the outcome of
  placing an order against a catalog, and the lemmas about it. These cover
  stock conservation, non-negative stock, one line item per request, the exact
  success condition, and what each error reports.
- `Repository` (repository.dfy): the class `Store`, with fields `products`,
  `orders`, `items` and the two key counters, and one method per repository
  operation. Each method is one transaction. `PlaceOrder` runs the item loop
  (`RunPlacement`) on a working copy of the catalog and writes the tables only
  after the loop. On an error it returns with every field unchanged.
- `Scenarios` (scenarios.dfy): client runs modelled on the repository's
  tests. In one, a product with one unit in stock is ordered twice: the first
  order succeeds and the second fails. Another places an order and sets its
  status to SENT. Another adds a product name twice. The last looks up ids
  beyond the INTEGER range.

The root-level `orm_query.py` and `db.py` are an earlier variant of
`app/orm_query.py` and `app/db.py`. Their `add_product`, `get_all`,
`get_product` and `add_order` do the same thing, with a session opened per
call instead of one passed in. One model covers both. Several rows below cite
the root variant's lines for a property the two share. In that variant both
add_order failures leave the `async with` block before the commit, and so does
add_product's. So nothing persists in either variant. The model rolls back
fully on every error, as the code does.

The store state is the PostgreSQL database of the `app` variant. `in_stock` is
a SMALLINT column. The `ProductAdd` validator only bounds it from below, so a
stock above 32767 passes validation. The database driver then refuses it with
an error that is not an `IntegrityError`, so the repository does not catch it.
`AddProduct` and `UpdateProduct` model this as `StorageError` with nothing
written. `update_product` renaming a product to a name another product
carries fails the same way: the unique constraint raises an `IntegrityError`
that `update_product` does not catch.

Keys are INTEGER columns, but ids in request paths are unbounded integers.
The driver cannot bind an id outside the INTEGER range to the
`WHERE id = ...` parameter, and it raises an error the repository does not
catch. So get, update and delete of such an id end in `StorageError`, not in
not-found. A product or order key sequence that has reached the INTEGER maximum fails the same
way on the next insert. For an order this happens at the flush before the
first item. Stored keys therefore always lie within the INTEGER range.

An order with no items is accepted and committed with zero line items: the
validator puts no minimum on the item list.

## Model

| member | source | states |
|---|---|---|
| Outcomes.HttpStatus | app/orm_query.py:94-101 | An unknown product name or an absent id is a 404, short stock or a duplicate name a 400, an uncaught driver or database error (an oversized stock, an id outside INTEGER, an exhausted key sequence) a 500 |
| Entities.WithoutProduct | app/db.py:73-74 | Deleting a product removes exactly the line items that reference it; every other item stays with its multiplicity |
| Entities.WithoutOrder | app/db.py:60-61 | Deleting an order removes exactly its line items; every other item stays with its multiplicity |
| Entities.DeleteOrderKeepsReferences | app/db.py:71-72 | After an order and its cascaded items are deleted, every remaining item still references a stored order and product |
| Entities.DeleteProductKeepsReferences | db.py:61-62 | After a product and its cascaded items are deleted, every remaining item still references a stored product, and all orders remain |
| Schemas.ParseStatus | schemas.py:45-46 | The status update accepts a string iff it is the value of one of the three statuses, and yields that status |
| Schemas.StatusRoundTrip | app/db.py:46-49 | Each of the three statuses parses back from its value |
| Schemas.ValidatedProductFitsTable | db.py:21-29 | A validated ProductAdd whose stock fits SMALLINT satisfies every product-table constraint: name width, description width, price > 0, stock >= 0 |
| Schemas.ValidatorAdmitsOversizedStock | schemas.py:11-12 | Some input passes the ProductAdd validator yet violates the SMALLINT width of in_stock |
| Placement.Lookup | orm_query.py:62-64 | The name query yields a product carrying that name, and yields none iff no product carries it |
| Placement.LookupUnique | app/db.py:32 | With unique names, the name query yields the one product carrying the name |
| Placement.Place | orm_query.py:59-77 | Placing an order fails only with an unknown product or with insufficient stock |
| Placement.PlaceKeepsRows | app/orm_query.py:102-103 | A successful placement keeps every product key, name, description and price; only stock changes |
| Placement.PlaceLines | app/orm_query.py:105-108 | A successful placement records one line item per request, in request order, with the new order id, the requested amount, and the product carrying the requested name |
| Placement.PlaceConservesStock | orm_query.py:73-77 | Each product loses exactly the sum of the amounts of the line items that reference it |
| Placement.PlaceStockByDemand | app/orm_query.py:90-104 | With unique names, each product ends at its old stock minus the total requested under its name; repeated names accumulate |
| Placement.PlaceNeverNegative | app/orm_query.py:97-102 | Stock never goes below zero and never rises |
| Placement.PlacedLinesFitTable | db.py:63-71 | Every recorded line item has a positive amount that fits the INTEGER column, because it is at most a SMALLINT stock |
| Placement.PlaceSucceedsIff | orm_query.py:61-74 | Placement succeeds iff every requested name is in the catalog and no product is asked for more in total than it holds |
| Placement.PlaceUnknownReports | app/orm_query.py:94-96 | A not-found failure carries a requested name that no product carries |
| Placement.PlaceInsufficientReports | app/orm_query.py:97-101 | An insufficient-stock failure carries the requested name and the stock left after the earlier items for it, and that stock is below the failing item's amount |
| Placement.PlaceFacts | app/orm_query.py:88-108 | Gathers the properties of a successful placement against a valid catalog: rows kept but stock, stock by demand and non-negative, valid line items in request order |
| Repository.FindByName | app/orm_query.py:91-93 | The name query returns a product carrying the name, and returns none iff there is none |
| Repository.LinesOf | schemas.py:37-42 | An order reads back only items that belong to it, and no more items than the table holds |
| Repository.LinesOfComplete | app/db.py:60-61 | Every item of the order is read back |
| Repository.LinesOfCount | app/db.py:60-61 | The items read back and the items that survive deleting the order together number exactly the table's items |
| Repository.LinesOfMultiset | app/db.py:60-61 | Each (product, amount) pair is read back exactly as many times as the order's items with that pair are stored |
| Repository.RunPlacement | app/orm_query.py:88-108 | The item loop over a working copy of the catalog computes exactly Place |
| Repository.DeleteProductKeepsTables | app/db.py:73-74 | Deleting a product together with the items its foreign key cascades to keeps every table constraint and reference valid |
| Repository.CommitPlacement | app/orm_query.py:110-112 | Committing a successful placement keeps every table constraint and reference valid; the new order reads back one item per request |
| Repository.Store.AddProduct | app/orm_query.py:14-26 | Oversized stock or an exhausted key sequence gives a storage error, and a taken name gives DuplicateName; each leaves the store unchanged. Otherwise exactly one product is added under a fresh key, which is returned |
| Repository.Store.GetProduct | app/orm_query.py:39-47 | Returns the stored product with its id. An id outside INTEGER gives a storage error; any other absent id gives ProductNotFound |
| Repository.Store.ListProducts | app/orm_query.py:29-36 | Returns every stored product exactly once, as stored, and changes nothing |
| Repository.Store.UpdateProduct | app/orm_query.py:62-76 | An id outside INTEGER gives a storage error; any other absent id gives ProductNotFound; oversized stock or another product's name gives a storage error; these leave the store unchanged. Otherwise every field of that product only is overwritten |
| Repository.Store.DeleteProduct | app/orm_query.py:50-59 | An id outside INTEGER gives a storage error, and any other absent id ProductNotFound, with nothing changed. Otherwise exactly that product and the items referencing it go; the orders stay |
| Repository.Store.GetOrder | app/orm_query.py:125-133 | Returns the stored order's id, status and creation time, with every one of its items and no other, each (product, amount) pair exactly as many times as the order stores it. An id outside INTEGER gives a storage error; any other absent id gives OrderNotFound |
| Repository.Store.ListOrders | app/orm_query.py:115-122 | Returns every stored order exactly once, each as GetOrder reads it, and changes nothing |
| Repository.Store.UpdateStatus | app/orm_query.py:136-149 | An id outside INTEGER gives a storage error, and any other absent id OrderNotFound, with nothing changed. Otherwise only that order's status changes, to any of the three values; the creation time, items and catalog stay, and the updated order is returned |
| Repository.Store.PlaceOrder | app/orm_query.py:82-112 | An exhausted order key sequence gives a storage error. Otherwise, on failure it returns the placement's error. Either way nothing changes. On success there is one new order under a fresh key with the requested or default status, and its id is returned. Each stock drops by the demand under its name and stays >= 0. The order reads back one item per request, in order. It succeeds iff a key is left, all names exist and the stock covers the total demand |

## Left out

- HTTP routing and response wrapping (`routers.py`, `app/routers.py`), app startup and table creation (`main.py`, `app/main.py`), and the engine, session factory and `get_db` plumbing are not part of this model. Only their effect is modelled: an error means no commit, so the store is unchanged.
- async/await, `flush` and cross-request concurrency: each operation is one sequential state transition. Isolation between concurrent placements is the database's concern.
- The `created` timestamp comes from the database clock. `PlaceOrder` takes it as the parameter `now` and nothing changes it afterwards.
- `price` is a floating-point column. It is a `real` here, with only the `> 0` constraint.
- Error message texts (in Russian) and the pydantic/SQLAlchemy conversions are not modelled. The errors are a datatype carrying the requested name and the available stock.
- Key sequences: PostgreSQL does not roll back a sequence, so a failed insert still uses up a key. The model's counters advance only on success. Only freshness of returned keys is claimed, not their exact values after a failure.
- Line-item keys are not modelled. A line item's identity is its position in `items`. So an exhausted line-item key sequence, which would make add_order fail with an uncaught error, is not modelled either.
- An explicit `"status": null` in an order request is not modelled. An omitted status is `None` and becomes PENDING.
- String lengths are counted in Dafny characters, not in Python code points.
- The root variant runs on SQLite, and the store state here follows the PostgreSQL behaviour of the `app` variant instead. SQLite does not enforce the SMALLINT or VARCHAR widths. Its keys are 64-bit, so the root `get_product` reports not-found for an id in [2^31, 2^63), where the model gives a storage error. It also ignores the `ondelete='CASCADE'` declarations unless foreign-key enforcement is switched on. The root variant has no delete operation, so this last point changes nothing the model claims.
- Repository.Store.GetOrder: lists an order's items in table (insertion) order. The relationship loader issues no ORDER BY, so the source promises no order.
- Repository.Store.ListProducts: the result's order is left open, as `select` without ORDER BY leaves it.
- No repository operation deletes an order. The declared cascade is modelled by `WithoutOrder` and its reference lemma only.
- The un-awaited `session.rollback()` calls in the root `orm_query.py` have no effect. Closing the session discards the uncommitted work, and that is what the model does.
