/** The Stripe webhook endpoint as a state machine over an abstract store.
    Every answer the handler gets from outside (signature check, session
    retrieval and listing, database errors, the e-mail sender's verdict, the
    clock) is a field of the incoming request, so each delivery is a pure
    transition. The module-level "email already sent" set is part of the store
    and its 5-minute clean-up timer is an explicit input. */
module StripeWebhook {
  import opened Base
  import opened Orders
  import Stock

  /** One entry of the JSON cart manifest in the session metadata. Prices in cents. */
  datatype ManifestItem = ManifestItem(
    productId: Option<Id>,
    variantId: Option<Id>,
    name: Option<string>,
    size: Option<string>,
    color: Option<string>,
    image: Option<string>,
    quantity: int,
    price: int)

  /** The expanded checkout session. `manifest` is `None` when the metadata
      does not parse as a list of items; a missing entry reads as `[]`. */
  datatype Session = Session(paymentIntent: Option<Id>, manifest: Option<seq<ManifestItem>>)

  /** Answer of `checkout.sessions.list({payment_intent, limit: 1})`. */
  datatype SessionList = ListFailed | NoSession | FoundSession(sessionId: Id)

  /** A verified event. `retrieved` is the answer of `checkout.sessions.retrieve`
      (`None` when the call throws); the handler only asks for it where the source does. */
  datatype Event =
    | CheckoutSessionCompleted(sessionId: Id, retrieved: Option<Session>)
    | PaymentIntentSucceeded(intentId: Id, sessions: SessionList, retrieved: Option<Session>)
    | PaymentIntentFailed(intentId: Id)
    | Unhandled(eventType: string)

  /** Database and sender outcomes during one delivery. */
  datatype Faults = Faults(
    lookupFails: bool,       // selecting the order by session id errors
    itemsCheckFails: bool,   // the order_items existence query errors (its data is then null)
    orderUpdateFails: bool,  // updates of the orders table fail
    insertFails: bool,       // the order_items insert fails for a reason other than a duplicate key
    stock: Stock.StockFaults,
    emailOk: bool)           // sendOrderConfirmationHook reports success

  /** One POST to the endpoint. `verified` is the verdict of `constructEvent`. */
  datatype Request = Request(signature: Option<string>, verified: bool, event: Event, faults: Faults, now: nat)

  datatype Response = BadRequest(error: string) | Received

  /** What the e-mail guard did: a call of the sender and its verdict, or the
      clean-up timer removing an order id from the sent set. */
  datatype MailEvent = Attempt(orderId: Id, ok: bool) | Expired(orderId: Id)

  /** The tables the webhook touches and the process-local sent set, plus
      two logs that exist only in the model, so that properties can speak of
      the history: `mailLog` records every sender call and timer expiry, and
      `inserts` every successful batch insert of order lines. Neither has a
      counterpart in the route; they are ordinary fields, not ghost ones. */
  datatype Store = Store(
    orders: map<Id, Order>,
    items: map<Id, seq<OrderItem>>,
    inventory: Stock.Inventory,
    emailSent: set<Id>,
    mailLog: seq<MailEvent>,
    inserts: seq<Id>)

  /** A delivery to the process: a webhook request or the firing of a clean-up timer. */
  datatype Input = Post(request: Request) | EmailCacheExpiry(orderId: Id)

  // ---------------------------------------------------------------------------
  // Queries

  function ItemsOf(s: Store, orderId: Id): seq<OrderItem> {
    if orderId in s.items then s.items[orderId] else []
  }

  predicate HasItems(s: Store, orderId: Id) {
    |ItemsOf(s, orderId)| > 0
  }

  /** What the existence check reports: an erroring query yields no data,
      which the handler reads as "no items yet". */
  predicate ItemsSeen(s: Store, orderId: Id, faults: Faults) {
    !faults.itemsCheckFails && HasItems(s, orderId)
  }

  function SessionMatches(orders: map<Id, Order>, sessionId: Id): set<Id> {
    set k | k in orders && orders[k].sessionId == sessionId
  }

  lemma SingletonIs(s: set<Id>, x: Id)
    requires |s| == 1 && x in s
    ensures s == {x}
  {
    assert |s - {x}| == 0;
  }

  /** `.eq('stripe_session_id', id).single()`: an order is found only when
      exactly one row matches. */
  function OrderBySession(orders: map<Id, Order>, sessionId: Id): (r: Option<Id>)
    ensures r.Some? <==> |SessionMatches(orders, sessionId)| == 1
    ensures r.Some? ==> SessionMatches(orders, sessionId) == {r.value}
    ensures r.Some? ==> r.value in orders && orders[r.value].sessionId == sessionId
  {
    var matches := SessionMatches(orders, sessionId);
    if |matches| == 1 then
      var k :| k in matches;
      SingletonIs(matches, k);
      Some(k)
    else None
  }

  /** A session id carried by exactly one order finds that order. */
  lemma FindsUniqueSession(orders: map<Id, Order>, sessionId: Id, orderId: Id)
    requires orderId in orders && orders[orderId].sessionId == sessionId
    requires forall k :: k in orders && k != orderId ==> orders[k].sessionId != sessionId
    ensures OrderBySession(orders, sessionId) == Some(orderId)
  {
    assert SessionMatches(orders, sessionId) == {orderId};
  }

  // ---------------------------------------------------------------------------
  // Writes

  /** The paid transition: `payment_status = paid`, `status = processing`,
      `paid_at = now`, and the payment intent id when one is given. */
  function MarkPaid(o: Order, now: nat, intentId: Option<Id>): Order {
    o.(paymentStatus := Paid, status := Processing, paidAt := Some(now),
       paymentIntentId := if intentId.Some? then intentId else o.paymentIntentId)
  }

  /** The failed transition: `payment_status = failed`, `status = cancelled`, `cancelled_at = now`. */
  function MarkFailed(o: Order, now: nat): Order {
    o.(paymentStatus := PaymentFailed, status := Cancelled, cancelledAt := Some(now))
  }

  /** `update(...).eq('id', orderId)`, which writes nothing when it fails. */
  function UpdatePaidById(s: Store, orderId: Id, now: nat, intentId: Id, faults: Faults): (s': Store)
    ensures s'.items == s.items && s'.inventory == s.inventory && s'.inserts == s.inserts
    ensures s'.emailSent == s.emailSent && s'.mailLog == s.mailLog
    ensures s'.orders.Keys == s.orders.Keys
    ensures faults.orderUpdateFails || orderId !in s.orders ==> s' == s
    ensures !faults.orderUpdateFails && orderId in s.orders ==>
              s'.orders == s.orders[orderId := MarkPaid(s.orders[orderId], now, Some(intentId))]
  {
    if faults.orderUpdateFails || orderId !in s.orders then s
    else s.(orders := s.orders[orderId := MarkPaid(s.orders[orderId], now, Some(intentId))])
  }

  /** `update(...).eq('payment_intent_id', intentId)`: every matching order is rewritten. */
  function UpdateByIntent(s: Store, intentId: Id, change: Order -> Order, faults: Faults): (s': Store)
    ensures s'.items == s.items && s'.inventory == s.inventory && s'.inserts == s.inserts
    ensures s'.emailSent == s.emailSent && s'.mailLog == s.mailLog
    ensures s'.orders.Keys == s.orders.Keys
    ensures faults.orderUpdateFails ==> s' == s
    ensures !faults.orderUpdateFails ==>
              forall k :: k in s.orders ==>
                s'.orders[k] == (if s.orders[k].paymentIntentId == Some(intentId) then change(s.orders[k]) else s.orders[k])
  {
    if faults.orderUpdateFails then s
    else s.(orders := map k | k in s.orders ::
                        if s.orders[k].paymentIntentId == Some(intentId) then change(s.orders[k]) else s.orders[k])
  }

  /** `decrementStockForOrder(orderId)` over the order's current lines. */
  function DecrementStock(s: Store, orderId: Id, faults: Faults): (s': Store)
    ensures s'.orders == s.orders && s'.items == s.items && s'.emailSent == s.emailSent
            && s'.mailLog == s.mailLog && s'.inserts == s.inserts
    ensures |s.inventory.movements| <= |s'.inventory.movements|
            && s'.inventory.movements[..|s.inventory.movements|] == s.inventory.movements
    ensures forall v :: v in s.inventory.variantStock && !Stock.NamesVariant(ItemsOf(s, orderId), v) ==>
              v in s'.inventory.variantStock && s'.inventory.variantStock[v] == s.inventory.variantStock[v]
    ensures forall p :: p in s.inventory.productStock && !Stock.NamesProduct(ItemsOf(s, orderId), p) ==>
              p in s'.inventory.productStock && s'.inventory.productStock[p] == s.inventory.productStock[p]
  {
    var lines := ItemsOf(s, orderId);
    Stock.UnnamedCountersKept(s.inventory, faults.stock, lines);
    s.(inventory := Stock.DecrementForOrder(s.inventory, faults.stock, lines).0)
  }

  /** `sendConfirmationEmailSafe`: skip an order already in the sent set;
      otherwise call the sender and add the id only when it reports success. */
  function SendConfirmationEmailSafe(s: Store, orderId: Id, ok: bool): (s': Store)
    ensures s'.orders == s.orders && s'.items == s.items && s'.inventory == s.inventory && s'.inserts == s.inserts
    ensures orderId in s.emailSent ==> s' == s
    ensures orderId !in s.emailSent ==> s'.mailLog == s.mailLog + [Attempt(orderId, ok)]
    ensures orderId !in s.emailSent && ok ==> s'.emailSent == s.emailSent + {orderId}
    ensures !ok ==> s'.emailSent == s.emailSent
  {
    if orderId in s.emailSent then s
    else
      var logged := s.(mailLog := s.mailLog + [Attempt(orderId, ok)]);
      if ok then logged.(emailSent := s.emailSent + {orderId}) else logged
  }

  /** The clean-up timer: the id leaves the sent set. */
  function ExpireEmail(s: Store, orderId: Id): (s': Store)
    ensures orderId !in s'.emailSent && s'.emailSent == s.emailSent - {orderId}
    ensures s'.orders == s.orders && s'.items == s.items && s'.inventory == s.inventory && s'.inserts == s.inserts
  {
    s.(emailSent := s.emailSent - {orderId}, mailLog := s.mailLog + [Expired(orderId)])
  }

  /** Decrement then attempt the confirmation: the tail shared by three branches. */
  function DecrementAndNotify(s: Store, orderId: Id, faults: Faults): Store {
    SendConfirmationEmailSafe(DecrementStock(s, orderId, faults), orderId, faults.emailOk)
  }

  // ---------------------------------------------------------------------------
  // Finalization

  /** `` `${size || ''} ${color || ''}`.trim() `` when either is set, else null. */
  function VariantName(size: Option<string>, color: Option<string>): Option<string> {
    if Truthy(size) || Truthy(color) then Some(Trim(OrEmpty(size) + " " + OrEmpty(color))) else None
  }

  /** The `order_items` row built from one manifest entry. */
  function ToOrderItem(orderId: Id, m: ManifestItem): OrderItem {
    OrderItem(
      orderId := orderId,
      productId := m.productId,
      variantId := OrNull(m.variantId),
      productName := OrNull(m.name),
      variantName := VariantName(m.size, m.color),
      imageUrl := OrNull(m.image),
      quantity := m.quantity,
      unitPrice := m.price,
      totalPrice := m.price * m.quantity)
  }

  function ToOrderItems(orderId: Id, ms: seq<ManifestItem>): (r: seq<OrderItem>)
    ensures |r| == |ms|
    ensures forall i :: 0 <= i < |ms| ==> r[i] == ToOrderItem(orderId, ms[i])
  {
    seq(|ms|, i requires 0 <= i < |ms| => ToOrderItem(orderId, ms[i]))
  }

  /** The batch insert behind the uniqueness constraint on an order's lines:
      it fails as a duplicate when the order already has lines. */
  function InsertItems(s: Store, orderId: Id, rows: seq<OrderItem>, faults: Faults): Option<Store> {
    if HasItems(s, orderId) || faults.insertFails then None
    else Some(s.(items := s.items[orderId := rows], inserts := s.inserts + [orderId]))
  }

  /** `createOrderItemsAndConfirm`: mark paid; then parse the manifest, insert
      the lines, decrement stock and send the confirmation, each step only if
      the previous one succeeded. */
  function CreateOrderItemsAndConfirm(s: Store, orderId: Id, manifest: Option<seq<ManifestItem>>,
                                      intentId: Option<Id>, faults: Faults, now: nat): Store
  {
    if !Truthy(intentId) || faults.orderUpdateFails || orderId !in s.orders then s
    else
      var paid := UpdatePaidById(s, orderId, now, intentId.value, faults);
      match manifest
      case None => paid
      case Some(entries) =>
        if |entries| == 0 then paid
        else
          match InsertItems(paid, orderId, ToOrderItems(orderId, entries), faults)
          case None => paid
          case Some(inserted) => DecrementAndNotify(inserted, orderId, faults)
  }

  // ---------------------------------------------------------------------------
  // Handlers

  function HandleCheckoutSessionCompleted(s: Store, sessionId: Id, retrieved: Option<Session>,
                                          faults: Faults, now: nat): Store
  {
    match retrieved
    case None => s
    case Some(session) =>
      if !Truthy(session.paymentIntent) || faults.lookupFails then s
      else
        match OrderBySession(s.orders, sessionId)
        case None => s
        case Some(orderId) =>
          if ItemsSeen(s, orderId, faults) then
            if s.orders[orderId].paymentStatus == Paid then DecrementAndNotify(s, orderId, faults)
            else s
          else CreateOrderItemsAndConfirm(s, orderId, session.manifest, session.paymentIntent, faults, now)
  }

  function HandlePaymentIntentSucceeded(s: Store, intentId: Id, sessions: SessionList, retrieved: Option<Session>,
                                        faults: Faults, now: nat): Store
  {
    match sessions
    case ListFailed => s
    case NoSession => UpdateByIntent(s, intentId, o => MarkPaid(o, now, None), faults)
    case FoundSession(sessionId) =>
      if faults.lookupFails then s
      else
        match OrderBySession(s.orders, sessionId)
        case None => s
        case Some(orderId) =>
          if s.orders[orderId].paymentStatus == Paid then s
          else if ItemsSeen(s, orderId, faults) then
            // The status update's error is not checked: the decrement and e-mail run regardless.
            DecrementAndNotify(UpdatePaidById(s, orderId, now, intentId, faults), orderId, faults)
          else
            match retrieved
            case None => s
            case Some(session) => CreateOrderItemsAndConfirm(s, orderId, session.manifest, Some(intentId), faults, now)
  }

  function HandlePaymentIntentFailed(s: Store, intentId: Id, faults: Faults, now: nat): Store {
    UpdateByIntent(s, intentId, o => MarkFailed(o, now), faults)
  }

  /** The `POST` route: reject a missing or unverifiable signature, otherwise
      dispatch on the event type and acknowledge. */
  function HandlePost(s: Store, r: Request): (res: (Store, Response))
    ensures !Truthy(r.signature) ==> res == (s, BadRequest("Missing signature"))
    ensures Truthy(r.signature) && !r.verified ==> res.0 == s && res.1.BadRequest?
    ensures res.1.BadRequest? <==> !Truthy(r.signature) || !r.verified
    ensures r.event.Unhandled? ==> res.0 == s
  {
    if !Truthy(r.signature) then (s, BadRequest("Missing signature"))
    else if !r.verified then (s, BadRequest("Webhook signature verification failed"))
    else
      var s' := match r.event
        case CheckoutSessionCompleted(sessionId, retrieved) =>
          HandleCheckoutSessionCompleted(s, sessionId, retrieved, r.faults, r.now)
        case PaymentIntentSucceeded(intentId, sessions, retrieved) =>
          HandlePaymentIntentSucceeded(s, intentId, sessions, retrieved, r.faults, r.now)
        case PaymentIntentFailed(intentId) =>
          HandlePaymentIntentFailed(s, intentId, r.faults, r.now)
        case Unhandled(_) => s;
      (s', Received)
  }

  /** One delivery to the process. */
  function Step(s: Store, input: Input): Store {
    match input
    case Post(r) => HandlePost(s, r).0
    case EmailCacheExpiry(orderId) => ExpireEmail(s, orderId)
  }

  /** Deliveries handled one after another. */
  function Run(s: Store, inputs: seq<Input>): Store
    decreases |inputs|
  {
    if |inputs| == 0 then s else Run(Step(s, inputs[0]), inputs[1..])
  }
}
