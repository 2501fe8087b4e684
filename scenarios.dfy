/**
 * Client runs of the store modelled on the repository's own test scenarios:
 * what a caller can conclude from the method contracts alone.
 */
module Scenarios {
  import opened Outcomes
  import opened Entities
  import opened Schemas
  import opened Placement
  import opened Repository

  /**
   * A widget with one unit in stock: ordering one unit succeeds and empties
   * the stock; ordering one more fails with the stock of zero reported and
   * changes nothing.
   */
  method WidgetScenario() {
    var store := new Store();
    var widget := Product("widget", None, 1.0, 1);
    var added := store.AddProduct(widget);
    assert added.Ok?;
    var pid := added.value;
    assert store.products == map[pid := widget];

    var request := OrderAdd([Item("widget", 1)], None);
    assert Demand(request.items, "widget") == 1;
    assert NameTaken(store.products, "widget");
    var placed := store.PlaceOrder(request, 0);
    assert placed.Ok?;
    var oid := placed.value;
    assert store.GetProduct(pid).value.product.inStock == 0;
    assert store.GetOrder(oid).value.status == Pending;

    var again := store.PlaceOrder(request, 1);
    assert !DemandCovered(store.products, request.items) by {
      assert pid in store.products && store.products[pid].name == "widget";
    }
    assert again.Err?;
    LookupUnique(store.products, "widget", pid);
    assert again.error == InsufficientStock("widget", 0);
    assert store.GetProduct(pid).value.product.inStock == 0;
  }

  /** A placed order starts PENDING and can then be set to SENT. */
  method StatusScenario() {
    var store := new Store();
    var widget := Product("widget", None, 1.0, 1);
    var added := store.AddProduct(widget);
    assert added.Ok?;
    assert store.products == map[added.value := widget];

    var request := OrderAdd([Item("widget", 1)], None);
    assert Demand(request.items, "widget") == 1;
    assert NameTaken(store.products, "widget");
    var placed := store.PlaceOrder(request, 0);
    assert placed.Ok?;
    var oid := placed.value;
    assert store.GetOrder(oid).value.status == Pending;

    var sent := store.UpdateStatus(oid, Sent);
    assert sent.Ok? && store.GetOrder(oid).value.status == Sent;
  }

  /** A second product under a taken name is refused, and the catalog keeps its one row. */
  method DuplicateNameScenario() {
    var store := new Store();
    var widget := Product("widget", None, 1.0, 1);
    var first := store.AddProduct(widget);
    assert first.Ok?;
    var second := store.AddProduct(widget.(price := 2.0));
    assert NameTaken(map[first.value := widget], "widget");
    assert second == Err(DuplicateName);
    assert |store.products| == 1;
  }

  /** An order id beyond the INTEGER range cannot even be looked up. */
  method OutOfRangeIdScenario() {
    var store := new Store();
    assert store.GetOrder(IntegerMax + 1) == Err(StorageError);
    assert store.GetProduct(IntegerMin - 1) == Err(StorageError);
  }
}
