/**
 * What placing an order does to the catalog, as a function of the catalog
 * and the requested items: the items are taken one by one in request order;
 * each one is looked up by exact name, checked against the stock that is
 * left after the earlier items, and then withdrawn and recorded as a line
 * item. The first failure ends the whole placement with that error.
 */
module Placement {
  import opened Outcomes
  import opened Entities
  import opened Schemas

  /** The catalog and the line items a successful placement produces. */
  datatype Placed = Placed(catalog: map<int, Product>, lines: seq<OrderItem>)

  /** The key of a product named `name`, if any (the only one when names are unique). */
  ghost function Lookup(catalog: map<int, Product>, name: string): (r: Option<int>)
    ensures r.Some? ==> r.value in catalog && catalog[r.value].name == name
    ensures r.None? <==> !NameTaken(catalog, name)
  {
    if NameTaken(catalog, name) then Some(var k :| k in catalog && catalog[k].name == name; k) else None
  }

  lemma LookupUnique(catalog: map<int, Product>, name: string, k: int)
    requires UniqueNames(catalog) && k in catalog && catalog[k].name == name
    ensures Lookup(catalog, name) == Some(k)
  {
  }

  /** The catalog after `amount` units of product `k` are taken out. */
  function Withdraw(catalog: map<int, Product>, k: int, amount: int): map<int, Product>
    requires k in catalog
  {
    catalog[k := catalog[k].(inStock := catalog[k].inStock - amount)]
  }

  /** Puts `lines` in front of the line items of a successful placement. */
  function Prefixed(lines: seq<OrderItem>, r: Result<Placed, Error>): Result<Placed, Error> {
    match r
    case Ok(p) => Ok(Placed(p.catalog, lines + p.lines))
    case Err(e) => Err(e)
  }

  lemma PrefixedEmpty(r: Result<Placed, Error>)
    ensures Prefixed([], r) == r
  {
    if r.Ok? {
      assert [] + r.value.lines == r.value.lines;
    }
  }

  lemma PrefixedTwice(a: seq<OrderItem>, b: seq<OrderItem>, r: Result<Placed, Error>)
    ensures Prefixed(a, Prefixed(b, r)) == Prefixed(a + b, r)
  {
    if r.Ok? {
      assert a + (b + r.value.lines) == (a + b) + r.value.lines;
    }
  }

  /** Placing `requests` for order `orderId` against `catalog`. */
  ghost function Place(catalog: map<int, Product>, orderId: int, requests: seq<Item>): (r: Result<Placed, Error>)
    ensures r.Err? ==> r.error.UnknownProduct? || r.error.InsufficientStock?
    decreases |requests|
  {
    if requests == [] then Ok(Placed(catalog, []))
    else
      var req := requests[0];
      match Lookup(catalog, req.name)
      case None => Err(UnknownProduct(req.name))
      case Some(k) =>
        if catalog[k].inStock < req.amount then Err(InsufficientStock(req.name, catalog[k].inStock))
        else Prefixed([OrderItem(orderId, k, req.amount)], Place(Withdraw(catalog, k, req.amount), orderId, requests[1..]))
  }

  /** Total amount requested under `name`. */
  function Demand(requests: seq<Item>, name: string): int {
    if requests == [] then 0
    else (if requests[0].name == name then requests[0].amount else 0) + Demand(requests[1..], name)
  }

  /** Total amount the line items take from product `pid`. */
  function Withdrawn(lines: seq<OrderItem>, pid: int): int {
    if lines == [] then 0
    else (if lines[0].productId == pid then lines[0].amount else 0) + Withdrawn(lines[1..], pid)
  }

  /** `after` has the keys of `before`, and each row differs at most in its stock. */
  predicate SameRows(before: map<int, Product>, after: map<int, Product>) {
    && before.Keys == after.Keys
    && forall k :: k in before ==> after[k] == before[k].(inStock := after[k].inStock)
  }

  predicate PositiveAmounts(requests: seq<Item>) {
    forall i :: 0 <= i < |requests| ==> requests[i].amount > 0
  }

  predicate StockNonNegative(catalog: map<int, Product>) {
    forall k :: k in catalog ==> catalog[k].inStock >= 0
  }

  /** Every requested name is carried by some product. */
  predicate AllKnown(catalog: map<int, Product>, requests: seq<Item>) {
    forall i :: 0 <= i < |requests| ==> NameTaken(catalog, requests[i].name)
  }

  /** No product is asked for more, in total, than it holds. */
  predicate DemandCovered(catalog: map<int, Product>, requests: seq<Item>) {
    forall k :: k in catalog ==> Demand(requests, catalog[k].name) <= catalog[k].inStock
  }

  lemma {:induction false} DemandNonNegative(requests: seq<Item>, name: string)
    requires PositiveAmounts(requests)
    ensures Demand(requests, name) >= 0
    decreases |requests|
  {
    if requests != [] {
      DemandNonNegative(requests[1..], name);
    }
  }

  lemma SameRowsUnique(before: map<int, Product>, after: map<int, Product>)
    requires SameRows(before, after) && UniqueNames(before)
    ensures UniqueNames(after)
  {
  }

  lemma SameRowsNames(before: map<int, Product>, after: map<int, Product>, name: string)
    requires SameRows(before, after)
    ensures NameTaken(after, name) <==> NameTaken(before, name)
  {
    if NameTaken(before, name) {
      var k :| k in before && before[k].name == name;
      assert after[k].name == name;
    }
    if NameTaken(after, name) {
      var k :| k in after && after[k].name == name;
      assert before[k].name == name;
    }
  }

  /** A successful placement changes stock only: keys, names, descriptions and prices stay. */
  lemma {:induction false} PlaceKeepsRows(catalog: map<int, Product>, orderId: int, requests: seq<Item>)
    ensures Place(catalog, orderId, requests).Ok? ==> SameRows(catalog, Place(catalog, orderId, requests).value.catalog)
    decreases |requests|
  {
    if requests != [] {
      var req := requests[0];
      var found := Lookup(catalog, req.name);
      if found.Some? && catalog[found.value].inStock >= req.amount {
        var next := Withdraw(catalog, found.value, req.amount);
        PlaceKeepsRows(next, orderId, requests[1..]);
      }
    }
  }

  /**
   * A successful placement records one line item per request, in request
   * order: it belongs to the new order, references the product that carries
   * the requested name, and has the requested amount.
   */
  lemma {:induction false} PlaceLines(catalog: map<int, Product>, orderId: int, requests: seq<Item>)
    ensures var r := Place(catalog, orderId, requests);
      r.Ok? ==>
        && |r.value.lines| == |requests|
        && forall i :: 0 <= i < |requests| ==>
             && r.value.lines[i].orderId == orderId
             && r.value.lines[i].amount == requests[i].amount
             && r.value.lines[i].productId in catalog
             && catalog[r.value.lines[i].productId].name == requests[i].name
    decreases |requests|
  {
    var r := Place(catalog, orderId, requests);
    if requests != [] && r.Ok? {
      var req := requests[0];
      var k := Lookup(catalog, req.name).value;
      var next := Withdraw(catalog, k, req.amount);
      var rest := Place(next, orderId, requests[1..]);
      PlaceLines(next, orderId, requests[1..]);
      assert r.value.lines == [OrderItem(orderId, k, req.amount)] + rest.value.lines;
      forall i | 0 <= i < |requests|
        ensures r.value.lines[i].orderId == orderId && r.value.lines[i].amount == requests[i].amount
        ensures r.value.lines[i].productId in catalog && catalog[r.value.lines[i].productId].name == requests[i].name
      {
        if i > 0 {
          assert r.value.lines[i] == rest.value.lines[i - 1];
          assert requests[1..][i - 1] == requests[i];
        }
      }
    }
  }

  /**
   * Stock conservation: what a successful placement removes from each
   * product is exactly the sum of the amounts on the line items that
   * reference it.
   */
  lemma {:induction false} PlaceConservesStock(catalog: map<int, Product>, orderId: int, requests: seq<Item>)
    ensures var r := Place(catalog, orderId, requests);
      r.Ok? ==> forall k :: k in catalog ==>
        k in r.value.catalog && r.value.catalog[k].inStock == catalog[k].inStock - Withdrawn(r.value.lines, k)
    decreases |requests|
  {
    var r := Place(catalog, orderId, requests);
    PlaceKeepsRows(catalog, orderId, requests);
    if requests != [] && r.Ok? {
      var req := requests[0];
      var k0 := Lookup(catalog, req.name).value;
      var next := Withdraw(catalog, k0, req.amount);
      var rest := Place(next, orderId, requests[1..]);
      PlaceConservesStock(next, orderId, requests[1..]);
      var lines := r.value.lines;
      assert lines == [OrderItem(orderId, k0, req.amount)] + rest.value.lines;
      assert lines[1..] == rest.value.lines;
      forall k | k in catalog
        ensures r.value.catalog[k].inStock == catalog[k].inStock - Withdrawn(lines, k)
      {
      }
    }
  }

  /**
   * With unique names, a successful placement leaves each product with its
   * old stock minus the total amount requested under its name (repeated
   * names accumulate).
   */
  lemma {:induction false} PlaceStockByDemand(catalog: map<int, Product>, orderId: int, requests: seq<Item>)
    requires UniqueNames(catalog)
    ensures var r := Place(catalog, orderId, requests);
      r.Ok? ==> forall k :: k in catalog ==>
        k in r.value.catalog && r.value.catalog[k].inStock == catalog[k].inStock - Demand(requests, catalog[k].name)
    decreases |requests|
  {
    var r := Place(catalog, orderId, requests);
    PlaceKeepsRows(catalog, orderId, requests);
    if requests != [] && r.Ok? {
      var req := requests[0];
      var k0 := Lookup(catalog, req.name).value;
      var next := Withdraw(catalog, k0, req.amount);
      assert SameRows(catalog, next);
      SameRowsUnique(catalog, next);
      PlaceStockByDemand(next, orderId, requests[1..]);
      forall k | k in catalog
        ensures r.value.catalog[k].inStock == catalog[k].inStock - Demand(requests, catalog[k].name)
      {
        if k != k0 {
          assert catalog[k].name != req.name;
        }
      }
    }
  }

  /**
   * A placement never drives stock negative, and never raises it: an item is
   * refused before any withdrawal when it asks for more than is left.
   */
  lemma {:induction false} PlaceNeverNegative(catalog: map<int, Product>, orderId: int, requests: seq<Item>)
    requires StockNonNegative(catalog) && PositiveAmounts(requests)
    ensures var r := Place(catalog, orderId, requests);
      r.Ok? ==> forall k :: k in catalog ==>
        k in r.value.catalog && 0 <= r.value.catalog[k].inStock <= catalog[k].inStock
    decreases |requests|
  {
    var r := Place(catalog, orderId, requests);
    PlaceKeepsRows(catalog, orderId, requests);
    if requests != [] && r.Ok? {
      var req := requests[0];
      var k0 := Lookup(catalog, req.name).value;
      var next := Withdraw(catalog, k0, req.amount);
      assert PositiveAmounts(requests[1..]) by {
        forall i | 0 <= i < |requests[1..]| ensures requests[1..][i].amount > 0 {
          assert requests[1..][i] == requests[i + 1];
        }
      }
      PlaceNeverNegative(next, orderId, requests[1..]);
    }
  }

  predicate LinesFitTable(lines: seq<OrderItem>) {
    forall i :: 0 <= i < |lines| ==> ItemFitsTable(lines[i])
  }

  /**
   * A line item recorded by a placement carries a positive amount no larger
   * than the stock it was drawn from, so it satisfies the line-item table.
   */
  lemma {:induction false} PlacedLinesFitTable(catalog: map<int, Product>, orderId: int, requests: seq<Item>)
    requires forall k :: k in catalog ==> ProductFitsTable(catalog[k])
    requires forall i :: 0 <= i < |requests| ==> ValidItem(requests[i])
    ensures var r := Place(catalog, orderId, requests);
      r.Ok? ==> LinesFitTable(r.value.lines)
    decreases |requests|
  {
    var r := Place(catalog, orderId, requests);
    if requests != [] && r.Ok? {
      var req := requests[0];
      var k0 := Lookup(catalog, req.name).value;
      var next := Withdraw(catalog, k0, req.amount);
      assert ValidItem(req);
      assert forall i :: 0 <= i < |requests[1..]| ==> ValidItem(requests[1..][i]) by {
        forall i | 0 <= i < |requests[1..]| ensures ValidItem(requests[1..][i]) {
          assert requests[1..][i] == requests[i + 1];
        }
      }
      assert catalog[k0].inStock >= req.amount;
      assert forall k :: k in next ==> ProductFitsTable(next[k]);
      PlacedLinesFitTable(next, orderId, requests[1..]);
      var rest := Place(next, orderId, requests[1..]).value.lines;
      var first := OrderItem(orderId, k0, req.amount);
      assert r.value.lines == [first] + rest;
      assert ItemFitsTable(first) by {
        assert ProductFitsTable(catalog[k0]);
      }
      assert LinesFitTable([first] + rest) by {
        forall i | 0 <= i < |[first] + rest| ensures ItemFitsTable(([first] + rest)[i]) {
          if i > 0 {
            assert ([first] + rest)[i] == rest[i - 1];
          }
        }
      }
    }
  }

  /**
   * The sequential checks add up to one condition on the whole request: a
   * placement succeeds iff every requested name is in the catalog and no
   * product is asked for more, in total, than it holds.
   */
  lemma {:induction false} PlaceSucceedsIff(catalog: map<int, Product>, orderId: int, requests: seq<Item>)
    requires UniqueNames(catalog) && StockNonNegative(catalog) && PositiveAmounts(requests)
    ensures Place(catalog, orderId, requests).Ok? <==> AllKnown(catalog, requests) && DemandCovered(catalog, requests)
    decreases |requests|
  {
    if requests == [] {
      return;
    }
    var req := requests[0];
    var rest := requests[1..];
    assert PositiveAmounts(rest) by {
      forall i | 0 <= i < |rest| ensures rest[i].amount > 0 {
        assert rest[i] == requests[i + 1];
      }
    }
    var found := Lookup(catalog, req.name);
    if found.None? {
      assert !NameTaken(catalog, requests[0].name);
      return;
    }
    var k0 := found.value;
    DemandNonNegative(rest, req.name);
    assert Demand(requests, req.name) == req.amount + Demand(rest, req.name);
    if catalog[k0].inStock < req.amount {
      assert !(Demand(requests, catalog[k0].name) <= catalog[k0].inStock);
      return;
    }
    var next := Withdraw(catalog, k0, req.amount);
    assert SameRows(catalog, next);
    SameRowsUnique(catalog, next);
    assert StockNonNegative(next);
    PlaceSucceedsIff(next, orderId, rest);
    assert AllKnown(next, rest) <==> AllKnown(catalog, requests) by {
      forall i | 0 <= i < |rest| ensures NameTaken(next, rest[i].name) <==> NameTaken(catalog, rest[i].name) {
        SameRowsNames(catalog, next, rest[i].name);
      }
      if AllKnown(catalog, rest) {
        forall i | 0 <= i < |requests| ensures NameTaken(catalog, requests[i].name) {
          if i > 0 {
            assert requests[i] == rest[i - 1];
          }
        }
      }
      if AllKnown(catalog, requests) {
        forall i | 0 <= i < |rest| ensures NameTaken(catalog, rest[i].name) {
          assert rest[i] == requests[i + 1];
        }
      }
    }
    forall k | k in catalog
      ensures (Demand(rest, next[k].name) <= next[k].inStock) <==> (Demand(requests, catalog[k].name) <= catalog[k].inStock)
    {
      if k != k0 {
        assert catalog[k].name != req.name;
      }
    }
  }

  /** An unknown-product failure names a requested product that no catalog entry carries. */
  lemma {:induction false} PlaceUnknownReports(catalog: map<int, Product>, orderId: int, requests: seq<Item>, name: string)
    requires Place(catalog, orderId, requests) == Err(UnknownProduct(name))
    ensures !NameTaken(catalog, name)
    ensures exists i :: 0 <= i < |requests| && requests[i].name == name
    decreases |requests|
  {
    var req := requests[0];
    var found := Lookup(catalog, req.name);
    if found.Some? {
      var next := Withdraw(catalog, found.value, req.amount);
      PlaceUnknownReports(next, orderId, requests[1..], name);
      assert SameRows(catalog, next);
      SameRowsNames(catalog, next, name);
      var i :| 0 <= i < |requests[1..]| && requests[1..][i].name == name;
      assert requests[i + 1].name == name;
    } else {
      assert requests[0].name == name;
    }
  }

  /**
   * An insufficient-stock failure reports the stock that was left for the
   * product named at the failing request, after the earlier requests for it
   * were withdrawn, and that stock is below the requested amount.
   */
  lemma {:induction false} PlaceInsufficientReports(catalog: map<int, Product>, orderId: int, requests: seq<Item>, name: string, available: int)
    requires UniqueNames(catalog)
    requires Place(catalog, orderId, requests) == Err(InsufficientStock(name, available))
    ensures exists i, k ::
      && 0 <= i < |requests| && k in catalog
      && requests[i].name == name && catalog[k].name == name
      && available == catalog[k].inStock - Demand(requests[..i], name)
      && available < requests[i].amount
    decreases |requests|
  {
    var req := requests[0];
    var k0 := Lookup(catalog, req.name).value;
    if catalog[k0].inStock < req.amount {
      assert requests[..0] == [];
      assert 0 <= 0 < |requests| && k0 in catalog && requests[0].name == name && catalog[k0].name == name;
      return;
    }
    var next := Withdraw(catalog, k0, req.amount);
    var rest := requests[1..];
    assert SameRows(catalog, next);
    SameRowsUnique(catalog, next);
    PlaceInsufficientReports(next, orderId, rest, name, available);
    var i, k :| 0 <= i < |rest| && k in next && rest[i].name == name && next[k].name == name
      && available == next[k].inStock - Demand(rest[..i], name) && available < rest[i].amount;
    assert requests[..i + 1] == [req] + rest[..i];
    assert Demand(requests[..i + 1], name) == (if req.name == name then req.amount else 0) + Demand(rest[..i], name);
    assert (k == k0) == (req.name == name);
    assert requests[i + 1] == rest[i];
  }

  /**
   * What a successful placement against a table-valid catalog guarantees, in
   * one place: the rows keep everything but their stock, each stock drops by
   * the demand under its name and stays non-negative, and there is one
   * valid line item per request.
   */
  lemma PlaceFacts(catalog: map<int, Product>, orderId: int, requests: seq<Item>)
    requires UniqueNames(catalog)
    requires forall k :: k in catalog ==> ProductFitsTable(catalog[k])
    requires forall i :: 0 <= i < |requests| ==> ValidItem(requests[i])
    ensures var r := Place(catalog, orderId, requests);
      r.Ok? ==>
        && SameRows(catalog, r.value.catalog)
        && UniqueNames(r.value.catalog)
        && (forall k :: k in catalog ==>
              && r.value.catalog[k].inStock == catalog[k].inStock - Demand(requests, catalog[k].name)
              && 0 <= r.value.catalog[k].inStock <= catalog[k].inStock
              && ProductFitsTable(r.value.catalog[k]))
        && |r.value.lines| == |requests|
        && LinesFitTable(r.value.lines)
        && (forall i :: 0 <= i < |requests| ==>
              && r.value.lines[i].orderId == orderId
              && r.value.lines[i].amount == requests[i].amount
              && r.value.lines[i].productId in catalog
              && catalog[r.value.lines[i].productId].name == requests[i].name)
  {
    var r := Place(catalog, orderId, requests);
    if r.Ok? {
      PlaceKeepsRows(catalog, orderId, requests);
      PlaceLines(catalog, orderId, requests);
      PlaceNeverNegative(catalog, orderId, requests);
      PlaceStockByDemand(catalog, orderId, requests);
      PlacedLinesFitTable(catalog, orderId, requests);
      SameRowsUnique(catalog, r.value.catalog);
    }
  }
}
