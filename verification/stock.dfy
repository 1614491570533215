/** Stock decrement after a confirmed payment: for every line of an order,
    lower the variant's (or else the product's) stock counter, clamped at zero,
    append a ledger row for variants, and collect per-line errors without
    aborting the batch. */
module Stock {
  import opened Base
  import opened Orders

  /** One `stock_movements` ledger row. */
  datatype Movement = Movement(variantId: Id, delta: int, reason: string)

  /** The stock counters and the ledger. A key that is absent is a row that
      does not exist; `None` is a row whose `stock_quantity` is NULL. */
  datatype Inventory = Inventory(
    productStock: map<Id, Option<int>>,
    variantStock: map<Id, Option<int>>,
    movements: seq<Movement>)

  /** Database answers the decrement cannot predict: whether fetching the
      order's lines fails, and which stock writes and ledger inserts fail. */
  datatype StockFaults = StockFaults(
    fetchFails: bool,
    variantUpdateFails: set<Id>,
    productUpdateFails: set<Id>,
    movementInsertFails: set<Id>)

  datatype ItemError = NoIdentifier | VariantNotFound | ProductNotFound | UpdateFailed {
    function Message(): string {
      match this
      case NoIdentifier => "No product_id or variant_id"
      case VariantNotFound => "Variant not found"
      case ProductNotFound => "Product not found"
      case UpdateFailed => "Update failed"
    }
  }

  datatype ItemOutcome = Decremented(newStock: int) | ItemFailed(reason: ItemError)

  /** One entry of the error list: the line's product name and what went wrong. */
  datatype ItemErrorReport = ItemErrorReport(productName: Option<string>, reason: ItemError) {
    function Message(): string {
      Show(productName) + ": " + reason.Message()
    }
  }

  /** What `decrementStockForOrder` returns. `success` is derived. */
  datatype DecrementResult =
    | Summary(decremented: nat, errors: seq<ItemErrorReport>)
    | Critical(message: string)
  {
    predicate Success() {
      Summary? && |errors| == 0
    }
  }

  /** `Math.max(0, (stock ?? 0) - quantity)`. */
  function ClampedStock(current: Option<int>, quantity: int): (n: int)
    ensures n >= 0
    ensures n >= current.GetOr(0) - quantity
    ensures n == 0 || n == current.GetOr(0) - quantity
  {
    if current.GetOr(0) - quantity > 0 then current.GetOr(0) - quantity else 0
  }

  function VariantReason(item: OrderItem): string {
    "Order item: " + Show(item.productName) + " - " + Show(item.variantName)
  }

  function ProductReason(item: OrderItem): string {
    "Order item: " + Show(item.productName)
  }

  predicate SameKeys(a: Inventory, b: Inventory) {
    a.productStock.Keys == b.productStock.Keys && a.variantStock.Keys == b.variantStock.Keys
  }

  /** Whether a line's decrement reports success. It depends only on which rows
      exist and which writes fail, never on the counters' values. */
  predicate Succeeds(inv: Inventory, faults: StockFaults, item: OrderItem) {
    if Truthy(item.variantId) then
      item.variantId.value in inv.variantStock && item.variantId.value !in faults.variantUpdateFails
    else if Truthy(item.productId) then
      item.productId.value in inv.productStock && item.productId.value !in faults.productUpdateFails
    else false
  }

  /** The ledger row a line appends, if any: only a successful variant line
      whose ledger insert does not fail. */
  function LedgerRow(inv: Inventory, faults: StockFaults, item: OrderItem): seq<Movement> {
    if Truthy(item.variantId) && Succeeds(inv, faults, item)
       && item.variantId.value !in faults.movementInsertFails
    then [Movement(item.variantId.value, -item.quantity, VariantReason(item))]
    else []
  }

  /** `decrementVariantStock`. */
  function DecrementVariant(inv: Inventory, faults: StockFaults, variantId: Id, quantity: int, reason: string)
    : (res: (Inventory, ItemOutcome))
    ensures SameKeys(inv, res.0) && res.0.productStock == inv.productStock
    ensures variantId !in inv.variantStock ==> res == (inv, ItemFailed(VariantNotFound))
    ensures variantId in inv.variantStock && variantId in faults.variantUpdateFails ==>
              res == (inv, ItemFailed(UpdateFailed))
    ensures res.1.Decremented? ==>
              && variantId in inv.variantStock
              && res.1.newStock == ClampedStock(inv.variantStock[variantId], quantity)
              && res.0.variantStock == inv.variantStock[variantId := Some(res.1.newStock)]
    ensures res.1.Decremented? && variantId !in faults.movementInsertFails ==>
              res.0.movements == inv.movements + [Movement(variantId, -quantity, reason)]
    ensures res.1.Decremented? && variantId in faults.movementInsertFails ==>
              res.0.movements == inv.movements
  {
    if variantId !in inv.variantStock then (inv, ItemFailed(VariantNotFound))
    else
      var newStock := ClampedStock(inv.variantStock[variantId], quantity);
      if variantId in faults.variantUpdateFails then (inv, ItemFailed(UpdateFailed))
      else
        var updated := inv.(variantStock := inv.variantStock[variantId := Some(newStock)]);
        // A failed ledger insert is logged and does not change the outcome.
        var logged := if variantId in faults.movementInsertFails then updated
                      else updated.(movements := updated.movements + [Movement(variantId, -quantity, reason)]);
        (logged, Decremented(newStock))
  }

  /** `decrementProductStock`: like a variant, but no ledger row is written. */
  function DecrementProduct(inv: Inventory, faults: StockFaults, productId: Id, quantity: int)
    : (res: (Inventory, ItemOutcome))
    ensures SameKeys(inv, res.0)
    ensures res.0.variantStock == inv.variantStock && res.0.movements == inv.movements
    ensures productId !in inv.productStock ==> res == (inv, ItemFailed(ProductNotFound))
    ensures productId in inv.productStock && productId in faults.productUpdateFails ==>
              res == (inv, ItemFailed(UpdateFailed))
    ensures res.1.Decremented? ==>
              && productId in inv.productStock
              && res.1.newStock == ClampedStock(inv.productStock[productId], quantity)
              && res.0.productStock == inv.productStock[productId := Some(res.1.newStock)]
  {
    if productId !in inv.productStock then (inv, ItemFailed(ProductNotFound))
    else
      var newStock := ClampedStock(inv.productStock[productId], quantity);
      if productId in faults.productUpdateFails then (inv, ItemFailed(UpdateFailed))
      else (inv.(productStock := inv.productStock[productId := Some(newStock)]), Decremented(newStock))
  }

  /** `decrementStockForItem`: a variant id wins over a product id; a line
      with neither fails. */
  function DecrementItem(inv: Inventory, faults: StockFaults, item: OrderItem): (res: (Inventory, ItemOutcome))
    ensures SameKeys(inv, res.0)
    ensures res.1.Decremented? <==> Succeeds(inv, faults, item)
    ensures res.1.ItemFailed? ==> res.0 == inv
    ensures res.0.movements == inv.movements + LedgerRow(inv, faults, item)
    ensures Truthy(item.variantId) ==> res.0.productStock == inv.productStock
    ensures !Truthy(item.variantId) ==> res.0.variantStock == inv.variantStock
    ensures !Truthy(item.variantId) && !Truthy(item.productId) ==> res == (inv, ItemFailed(NoIdentifier))
    ensures forall v :: v in inv.variantStock && item.variantId != Some(v) ==> res.0.variantStock[v] == inv.variantStock[v]
    ensures forall p :: p in inv.productStock && item.productId != Some(p) ==> res.0.productStock[p] == inv.productStock[p]
  {
    if Truthy(item.variantId) then
      DecrementVariant(inv, faults, item.variantId.value, item.quantity, VariantReason(item))
    else if Truthy(item.productId) then
      DecrementProduct(inv, faults, item.productId.value, item.quantity)
    else (inv, ItemFailed(NoIdentifier))
  }

  /** The per-line loop of `decrementStockForOrder` as a fold: every line is
      processed whatever happened to the lines before it. */
  function DecrementItems(inv: Inventory, faults: StockFaults, items: seq<OrderItem>)
    : (res: (Inventory, nat, seq<ItemErrorReport>))
    ensures SameKeys(inv, res.0)
    ensures res.1 + |res.2| == |items|
    ensures res.1 == Count(items, Succeeding(inv, faults))
    decreases |items|
  {
    if |items| == 0 then (inv, 0, [])
    else
      var step := DecrementItem(inv, faults, items[0]);
      SucceedsStable(inv, step.0, faults, items[1..]);
      var rest := DecrementItems(step.0, faults, items[1..]);
      if step.1.Decremented? then (rest.0, rest.1 + 1, rest.2)
      else (rest.0, rest.1, [ItemErrorReport(items[0].productName, step.1.reason)] + rest.2)
  }

  function Succeeding(inv: Inventory, faults: StockFaults): OrderItem -> bool {
    item => Succeeds(inv, faults, item)
  }

  /** Success of a line only depends on which rows exist, which the decrement never changes. */
  lemma SucceedsStable(a: Inventory, b: Inventory, faults: StockFaults, items: seq<OrderItem>)
    requires SameKeys(a, b)
    ensures Count(items, Succeeding(a, faults)) == Count(items, Succeeding(b, faults))
    decreases |items|
  {
    if |items| > 0 {
      SucceedsStable(a, b, faults, items[1..]);
    }
  }

  /** One line of the fold: its own outcome, then the rest from the updated inventory. */
  lemma DecrementItemsStep(inv: Inventory, faults: StockFaults, items: seq<OrderItem>)
    requires |items| > 0
    ensures var s := DecrementItem(inv, faults, items[0]);
            DecrementItems(inv, faults, items).0 == DecrementItems(s.0, faults, items[1..]).0
    ensures var s := DecrementItem(inv, faults, items[0]);
            DecrementItems(inv, faults, items).1
            == DecrementItems(s.0, faults, items[1..]).1 + (if s.1.Decremented? then 1 else 0)
    ensures var s := DecrementItem(inv, faults, items[0]);
            DecrementItems(inv, faults, items).2
            == (if s.1.Decremented? then [] else [ItemErrorReport(items[0].productName, s.1.reason)])
               + DecrementItems(s.0, faults, items[1..]).2
  {
  }

  /** `decrementStockForOrder`, given the order's lines as fetched. */
  function DecrementForOrder(inv: Inventory, faults: StockFaults, items: seq<OrderItem>)
    : (res: (Inventory, DecrementResult))
    ensures faults.fetchFails ==> res.0 == inv && res.1.Critical?
    ensures !faults.fetchFails && |items| == 0 ==> res.0 == inv && res.1.Success() && res.1.decremented == 0
    ensures !faults.fetchFails ==> res.1.Summary? && res.1.decremented + |res.1.errors| == |items|
    ensures res.1.Summary? ==> (res.1.Success() <==> res.1.decremented == |items|)
  {
    if faults.fetchFails then (inv, Critical("Failed to fetch order items"))
    else if |items| == 0 then (inv, Summary(0, []))
    else
      var (inv', count, errors) := DecrementItems(inv, faults, items);
      (inv', Summary(count, errors))
  }

  /** The same routine written as the source writes it: a loop over the lines
      with a running count and error list. */
  method DecrementStockForOrder(inv: Inventory, faults: StockFaults, items: seq<OrderItem>)
    returns (inv': Inventory, result: DecrementResult)
    ensures (inv', result) == DecrementForOrder(inv, faults, items)
  {
    if faults.fetchFails {
      return inv, Critical("Failed to fetch order items");
    }
    if |items| == 0 {
      return inv, Summary(0, []);
    }
    var current := inv;
    var count := 0;
    var errors: seq<ItemErrorReport> := [];
    var i := 0;
    assert items[0..] == items;
    while i < |items|
      invariant 0 <= i <= |items|
      invariant DecrementItems(inv, faults, items).0 == DecrementItems(current, faults, items[i..]).0
      invariant DecrementItems(inv, faults, items).1 == count + DecrementItems(current, faults, items[i..]).1
      invariant DecrementItems(inv, faults, items).2 == errors + DecrementItems(current, faults, items[i..]).2
    {
      assert items[i..][0] == items[i] && items[i..][1..] == items[i + 1..];
      DecrementItemsStep(current, faults, items[i..]);
      var (next, outcome) := DecrementItem(current, faults, items[i]);
      ghost var rest := DecrementItems(next, faults, items[i + 1..]);
      match outcome {
        case Decremented(_) =>
          assert [] + rest.2 == rest.2;
          count := count + 1;
        case ItemFailed(reason) =>
          var report := ItemErrorReport(items[i].productName, reason);
          assert errors + ([report] + rest.2) == errors + [report] + rest.2;
          errors := errors + [report];
      }
      current := next;
      i := i + 1;
    }
    assert items[i..] == [];
    assert errors + [] == errors;
    inv', result := current, Summary(count, errors);
  }

  /** No counter is ever written with a negative value. */
  /** Some line names variant `v`. */
  predicate NamesVariant(items: seq<OrderItem>, v: Id) {
    exists k :: 0 <= k < |items| && items[k].variantId == Some(v)
  }

  /** Some line names product `p`. */
  predicate NamesProduct(items: seq<OrderItem>, p: Id) {
    exists k :: 0 <= k < |items| && items[k].productId == Some(p)
  }

  /** Each write targets its own row (`.eq('id', …)`): a counter that no
      line of the order names keeps its value, and the ledger only grows. */
  lemma UnnamedCountersKept(inv: Inventory, faults: StockFaults, items: seq<OrderItem>)
    ensures var after := DecrementForOrder(inv, faults, items).0;
      && (forall v :: v in inv.variantStock && !NamesVariant(items, v) ==>
            v in after.variantStock && after.variantStock[v] == inv.variantStock[v])
      && (forall p :: p in inv.productStock && !NamesProduct(items, p) ==>
            p in after.productStock && after.productStock[p] == inv.productStock[p])
    ensures var after := DecrementForOrder(inv, faults, items).0;
            |inv.movements| <= |after.movements| && after.movements[..|inv.movements|] == inv.movements
  {
    if !faults.fetchFails && |items| > 0 {
      ItemsKeepUnnamed(inv, faults, items);
      LedgerAppendOnly(inv, faults, items);
      var rows := LedgerRows(inv, faults, items);
      assert (inv.movements + rows)[..|inv.movements|] == inv.movements;
    }
  }

  lemma {:induction false} ItemsKeepUnnamed(inv: Inventory, faults: StockFaults, items: seq<OrderItem>)
    ensures var after := DecrementItems(inv, faults, items).0;
      && (forall v :: v in inv.variantStock && !NamesVariant(items, v) ==>
            v in after.variantStock && after.variantStock[v] == inv.variantStock[v])
      && (forall p :: p in inv.productStock && !NamesProduct(items, p) ==>
            p in after.productStock && after.productStock[p] == inv.productStock[p])
    decreases |items|
  {
    if |items| > 0 {
      var inv1 := DecrementItem(inv, faults, items[0]).0;
      DecrementItemsStep(inv, faults, items);
      ItemsKeepUnnamed(inv1, faults, items[1..]);
      forall v | v in inv.variantStock && !NamesVariant(items, v)
        ensures !NamesVariant(items[1..], v) && items[0].variantId != Some(v)
      {
        assert items[0].variantId != Some(v);
      }
      forall p | p in inv.productStock && !NamesProduct(items, p)
        ensures !NamesProduct(items[1..], p) && items[0].productId != Some(p)
      {
        assert items[0].productId != Some(p);
      }
    }
  }

  predicate NonNegative(inv: Inventory) {
    && (forall v :: v in inv.variantStock && inv.variantStock[v].Some? ==> inv.variantStock[v].value >= 0)
    && (forall p :: p in inv.productStock && inv.productStock[p].Some? ==> inv.productStock[p].value >= 0)
  }

  /** Every counter after the decrement is either untouched or a non-negative value. */
  lemma {:induction false} StockFloor(inv: Inventory, faults: StockFaults, items: seq<OrderItem>)
    ensures var after := DecrementItems(inv, faults, items).0;
      && (forall v :: v in after.variantStock ==>
            after.variantStock[v] == inv.variantStock[v] ||
            (after.variantStock[v].Some? && after.variantStock[v].value >= 0))
      && (forall p :: p in after.productStock ==>
            after.productStock[p] == inv.productStock[p] ||
            (after.productStock[p].Some? && after.productStock[p].value >= 0))
    decreases |items|
  {
    if |items| > 0 {
      var inv1 := DecrementItem(inv, faults, items[0]).0;
      DecrementItemsStep(inv, faults, items);
      StockFloor(inv1, faults, items[1..]);
    }
  }

  /** Hence stock that starts non-negative stays non-negative, whatever the
      order, the quantities or the failures. */
  lemma NonNegativePreserved(inv: Inventory, faults: StockFaults, items: seq<OrderItem>)
    requires NonNegative(inv)
    ensures NonNegative(DecrementForOrder(inv, faults, items).0)
  {
    StockFloor(inv, faults, items);
  }

  /** The reason a line that does not succeed fails with; like success it
      depends only on which rows exist and which writes fail. */
  function FailureReason(inv: Inventory, faults: StockFaults, item: OrderItem): ItemError {
    if Truthy(item.variantId) then
      (if item.variantId.value !in inv.variantStock then VariantNotFound else UpdateFailed)
    else if Truthy(item.productId) then
      (if item.productId.value !in inv.productStock then ProductNotFound else UpdateFailed)
    else NoIdentifier
  }

  /** The error list the batch should report: one entry per failing line, in order. */
  function ExpectedErrors(inv: Inventory, faults: StockFaults, items: seq<OrderItem>): seq<ItemErrorReport>
    decreases |items|
  {
    if |items| == 0 then []
    else (if Succeeds(inv, faults, items[0]) then []
          else [ItemErrorReport(items[0].productName, FailureReason(inv, faults, items[0]))])
         + ExpectedErrors(inv, faults, items[1..])
  }

  lemma ExpectedErrorsStable(a: Inventory, b: Inventory, faults: StockFaults, items: seq<OrderItem>)
    requires SameKeys(a, b)
    ensures ExpectedErrors(a, faults, items) == ExpectedErrors(b, faults, items)
    decreases |items|
  {
    if |items| > 0 {
      ExpectedErrorsStable(a, b, faults, items[1..]);
    }
  }

  /** The reported errors are exactly the failing lines, in order, each with its reason. */
  lemma {:induction false} ErrorsAreFailingLines(inv: Inventory, faults: StockFaults, items: seq<OrderItem>)
    ensures DecrementItems(inv, faults, items).2 == ExpectedErrors(inv, faults, items)
    decreases |items|
  {
    if |items| > 0 {
      var (inv1, outcome) := DecrementItem(inv, faults, items[0]);
      ErrorsAreFailingLines(inv1, faults, items[1..]);
      ExpectedErrorsStable(inv, inv1, faults, items[1..]);
      if outcome.ItemFailed? {
        assert outcome.reason == FailureReason(inv, faults, items[0]);
      }
    }
  }

  /** The ledger rows a batch appends: one per successful variant line whose insert does not fail. */
  function LedgerRows(inv: Inventory, faults: StockFaults, items: seq<OrderItem>): seq<Movement>
    decreases |items|
  {
    if |items| == 0 then [] else LedgerRow(inv, faults, items[0]) + LedgerRows(inv, faults, items[1..])
  }

  lemma LedgerRowsStable(a: Inventory, b: Inventory, faults: StockFaults, items: seq<OrderItem>)
    requires SameKeys(a, b)
    ensures LedgerRows(a, faults, items) == LedgerRows(b, faults, items)
    decreases |items|
  {
    if |items| > 0 {
      LedgerRowsStable(a, b, faults, items[1..]);
    }
  }

  /** The ledger only grows, by exactly the rows of the successful variant lines. */
  lemma {:induction false} LedgerAppendOnly(inv: Inventory, faults: StockFaults, items: seq<OrderItem>)
    ensures DecrementItems(inv, faults, items).0.movements == inv.movements + LedgerRows(inv, faults, items)
    decreases |items|
  {
    if |items| > 0 {
      var inv1 := DecrementItem(inv, faults, items[0]).0;
      DecrementItemsStep(inv, faults, items);
      LedgerAppendOnly(inv1, faults, items[1..]);
      LedgerRowsStable(inv, inv1, faults, items[1..]);
      AppendTwice(inv.movements, LedgerRow(inv, faults, items[0]), inv1.movements,
                  LedgerRows(inv, faults, items[1..]), DecrementItems(inv, faults, items).0.movements,
                  LedgerRows(inv, faults, items));
    }
  }

  /** Appending `row` and then `rows` is appending `row + rows`. */
  lemma AppendTwice(start: seq<Movement>, row: seq<Movement>, middle: seq<Movement>,
                    rows: seq<Movement>, end: seq<Movement>, all: seq<Movement>)
    requires middle == start + row && end == middle + rows && all == row + rows
    ensures end == start + all
  {
    assert start + row + rows == start + (row + rows);
  }

  /** Every ledger row stems from a line with a variant id and records minus its quantity. */
  lemma {:induction false} LedgerRowsFromVariantLines(inv: Inventory, faults: StockFaults, items: seq<OrderItem>)
    ensures forall m :: m in LedgerRows(inv, faults, items) ==>
              exists j :: 0 <= j < |items| && Truthy(items[j].variantId)
                          && m.variantId == items[j].variantId.value && m.delta == -items[j].quantity
    decreases |items|
  {
    if |items| > 0 {
      LedgerRowsFromVariantLines(inv, faults, items[1..]);
      forall m | m in LedgerRows(inv, faults, items)
        ensures exists j :: 0 <= j < |items| && Truthy(items[j].variantId)
                            && m.variantId == items[j].variantId.value && m.delta == -items[j].quantity
      {
        if m in LedgerRow(inv, faults, items[0]) {
          assert items[0] == items[0];
        } else {
          assert m in LedgerRows(inv, faults, items[1..]);
          var j :| 0 <= j < |items[1..]| && Truthy(items[1..][j].variantId)
                   && m.variantId == items[1..][j].variantId.value && m.delta == -items[1..][j].quantity;
          assert items[1..][j] == items[j + 1];
        }
      }
    }
  }

  /** An order whose lines all lack a variant id leaves the ledger untouched. */
  lemma ProductLinesWriteNoLedger(inv: Inventory, faults: StockFaults, items: seq<OrderItem>)
    requires forall j :: 0 <= j < |items| ==> !Truthy(items[j].variantId)
    ensures DecrementForOrder(inv, faults, items).0.movements == inv.movements
  {
    LedgerAppendOnly(inv, faults, items);
    NoVariantLinesNoRows(inv, faults, items);
  }

  lemma NoVariantLinesNoRows(inv: Inventory, faults: StockFaults, items: seq<OrderItem>)
    requires forall j :: 0 <= j < |items| ==> !Truthy(items[j].variantId)
    ensures LedgerRows(inv, faults, items) == []
    decreases |items|
  {
    if |items| > 0 {
      NoVariantLinesNoRows(inv, faults, items[1..]);
    }
  }

  /** A failing line is inert: dropping it from the batch changes neither the
      resulting stock and ledger nor the success count, so the other lines are
      processed exactly as if it were absent. */
  lemma {:induction false} FailingLineIsolated(inv: Inventory, faults: StockFaults, items: seq<OrderItem>, k: nat)
    requires k < |items|
    requires !Succeeds(inv, faults, items[k])
    ensures DecrementItems(inv, faults, items).0 == DecrementItems(inv, faults, items[..k] + items[k + 1..]).0
    ensures DecrementItems(inv, faults, items).1 == DecrementItems(inv, faults, items[..k] + items[k + 1..]).1
    decreases k
  {
    var rest := items[..k] + items[k + 1..];
    if k == 0 {
      assert rest == items[1..];
    } else {
      var (inv1, _) := DecrementItem(inv, faults, items[0]);
      assert !Succeeds(inv1, faults, items[1..][k - 1]);
      FailingLineIsolated(inv1, faults, items[1..], k - 1);
      assert items[1..][..k - 1] + items[1..][k..] == rest[1..];
      assert rest[0] == items[0];
    }
  }
}
