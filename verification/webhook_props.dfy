/** What the webhook promises: the effect of each branch, the at-most-once
    insertion of an order's lines over any sequence of deliveries, the e-mail
    guard's dedup window, and two delivery scenarios. */
module StripeWebhookProperties {
  import opened Base
  import opened Orders
  import Stock
  import opened StripeWebhook

  // ---------------------------------------------------------------------------
  // Branch by branch

  /** A session without a payment intent, or one no single order carries,
      changes nothing. */
  lemma SessionWithoutIntentOrOrderIsIgnored(s: Store, sessionId: Id, session: Session, faults: Faults, now: nat)
    requires !Truthy(session.paymentIntent) || OrderBySession(s.orders, sessionId).None?
    ensures HandleCheckoutSessionCompleted(s, sessionId, Some(session), faults, now) == s
  {
  }

  /** A completed session for an order whose lines are already there never
      inserts lines; on a paid order it decrements and attempts the e-mail,
      otherwise it does nothing. */
  lemma SessionWithExistingItems(s: Store, sessionId: Id, session: Session, faults: Faults, now: nat, orderId: Id)
    requires Truthy(session.paymentIntent) && !faults.lookupFails
    requires OrderBySession(s.orders, sessionId) == Some(orderId)
    requires ItemsSeen(s, orderId, faults)
    ensures var s' := HandleCheckoutSessionCompleted(s, sessionId, Some(session), faults, now);
      && s'.items == s.items && s'.inserts == s.inserts && s'.orders == s.orders
      && (s.orders[orderId].paymentStatus == Paid ==>
            && s'.inventory == Stock.DecrementForOrder(s.inventory, faults.stock, ItemsOf(s, orderId)).0
            && (orderId !in s.emailSent <==> s'.mailLog == s.mailLog + [Attempt(orderId, faults.emailOk)]))
      && (s.orders[orderId].paymentStatus != Paid ==> s' == s)
  {
  }

  /** With no session for the intent, every order carrying that intent is
      marked paid and processing; no line can be created. */
  lemma IntentWithoutSessionMarksPaid(s: Store, intentId: Id, retrieved: Option<Session>, faults: Faults, now: nat)
    requires !faults.orderUpdateFails
    ensures var s' := HandlePaymentIntentSucceeded(s, intentId, NoSession, retrieved, faults, now);
      && s'.items == s.items && s'.inserts == s.inserts && s'.inventory == s.inventory
      && s'.mailLog == s.mailLog
      && forall k :: k in s.orders && s.orders[k].paymentIntentId == Some(intentId) ==>
           && s'.orders[k].paymentStatus == Paid && s'.orders[k].status == Processing
           && s'.orders[k].paidAt == Some(now)
  {
  }

  /** An intent for an order already paid changes nothing. */
  lemma IntentForPaidOrderIsIgnored(s: Store, intentId: Id, sessionId: Id, retrieved: Option<Session>,
                                    faults: Faults, now: nat, orderId: Id)
    requires !faults.lookupFails && OrderBySession(s.orders, sessionId) == Some(orderId)
    requires s.orders[orderId].paymentStatus == Paid
    ensures HandlePaymentIntentSucceeded(s, intentId, FoundSession(sessionId), retrieved, faults, now) == s
  {
  }

  /** An intent for an unpaid order whose lines exist marks it paid with the
      intent id, then decrements and attempts the e-mail; no line is inserted. */
  lemma IntentWithExistingItems(s: Store, intentId: Id, sessionId: Id, retrieved: Option<Session>,
                                faults: Faults, now: nat, orderId: Id)
    requires !faults.lookupFails && !faults.orderUpdateFails
    requires OrderBySession(s.orders, sessionId) == Some(orderId)
    requires s.orders[orderId].paymentStatus != Paid && ItemsSeen(s, orderId, faults)
    ensures var s' := HandlePaymentIntentSucceeded(s, intentId, FoundSession(sessionId), retrieved, faults, now);
      && s'.items == s.items && s'.inserts == s.inserts
      && s'.orders == s.orders[orderId := MarkPaid(s.orders[orderId], now, Some(intentId))]
      && s'.orders[orderId].paymentIntentId == Some(intentId)
      && s'.inventory == Stock.DecrementForOrder(s.inventory, faults.stock, ItemsOf(s, orderId)).0
      && (orderId !in s.emailSent <==> s'.mailLog == s.mailLog + [Attempt(orderId, faults.emailOk)])
  {
  }

  /** Otherwise the intent handler runs the full finalization with its own intent id. */
  lemma IntentWithoutItemsFinalizes(s: Store, intentId: Id, sessionId: Id, session: Session,
                                    faults: Faults, now: nat, orderId: Id)
    requires !faults.lookupFails && OrderBySession(s.orders, sessionId) == Some(orderId)
    requires s.orders[orderId].paymentStatus != Paid && !ItemsSeen(s, orderId, faults)
    ensures HandlePaymentIntentSucceeded(s, intentId, FoundSession(sessionId), Some(session), faults, now)
         == CreateOrderItemsAndConfirm(s, orderId, session.manifest, Some(intentId), faults, now)
  {
  }

  /** A failed status write stops the finalization before anything else happens. */
  lemma FinalizeStopsOnUpdateError(s: Store, orderId: Id, manifest: Option<seq<ManifestItem>>,
                                   intentId: Option<Id>, faults: Faults, now: nat)
    requires faults.orderUpdateFails
    ensures CreateOrderItemsAndConfirm(s, orderId, manifest, intentId, faults, now) == s
  {
  }

  /** An unparseable or empty manifest stops after the status write: the order
      is paid and still has no lines. */
  lemma FinalizeStopsOnBadManifest(s: Store, orderId: Id, manifest: Option<seq<ManifestItem>>,
                                   intentId: Id, faults: Faults, now: nat)
    requires intentId != "" && !faults.orderUpdateFails && orderId in s.orders
    requires manifest.None? || manifest == Some([])
    ensures CreateOrderItemsAndConfirm(s, orderId, manifest, Some(intentId), faults, now)
         == s.(orders := s.orders[orderId := MarkPaid(s.orders[orderId], now, Some(intentId))])
  {
  }

  /** A duplicate-key insert (the order already has lines) performs no decrement
      and no e-mail: only the status write remains. */
  lemma FinalizeDuplicateKeyStops(s: Store, orderId: Id, manifest: Option<seq<ManifestItem>>,
                                  intentId: Option<Id>, faults: Faults, now: nat)
    requires HasItems(s, orderId)
    ensures var s' := CreateOrderItemsAndConfirm(s, orderId, manifest, intentId, faults, now);
      && s'.items == s.items && s'.inserts == s.inserts && s'.inventory == s.inventory
      && s'.emailSent == s.emailSent && s'.mailLog == s.mailLog
  {
  }

  /** A successful finalization stores the mapped manifest as the order's
      lines, records one insert, decrements stock over exactly those lines and
      attempts the e-mail. */
  lemma FinalizeInsertsThenDecrementsThenNotifies(s: Store, orderId: Id, entries: seq<ManifestItem>,
                                                  intentId: Id, faults: Faults, now: nat)
    requires intentId != "" && !faults.orderUpdateFails && !faults.insertFails
    requires orderId in s.orders && !HasItems(s, orderId) && |entries| > 0
    ensures var s' := CreateOrderItemsAndConfirm(s, orderId, Some(entries), Some(intentId), faults, now);
      && s'.orders == s.orders[orderId := MarkPaid(s.orders[orderId], now, Some(intentId))]
      && s'.items == s.items[orderId := ToOrderItems(orderId, entries)]
      && s'.inserts == s.inserts + [orderId]
      && s'.inventory == Stock.DecrementForOrder(s.inventory, faults.stock, ToOrderItems(orderId, entries)).0
      && (orderId !in s.emailSent ==> s'.mailLog == s.mailLog + [Attempt(orderId, faults.emailOk)])
  {
  }

  // ---------------------------------------------------------------------------
  // Line mapping

  /** `total_price = price * quantity`; a missing variant id, name or image becomes null. */
  lemma OrderItemMapping(orderId: Id, m: ManifestItem)
    ensures var r := ToOrderItem(orderId, m);
      && r.orderId == orderId && r.productId == m.productId
      && r.totalPrice == m.price * m.quantity && r.unitPrice == m.price && r.quantity == m.quantity
      && (r.variantId.None? <==> !Truthy(m.variantId))
      && (r.productName.None? <==> !Truthy(m.name))
      && (r.imageUrl.None? <==> !Truthy(m.image))
      && (r.variantName.None? <==> !Truthy(m.size) && !Truthy(m.color))
  {
  }

  predicate Trimmed(s: string) {
    |s| > 0 && !IsJsSpace(s[0]) && !IsJsSpace(s[|s| - 1])
  }

  lemma TrimKeepsTrimmed(s: string)
    requires Trimmed(s)
    ensures Trim(s) == s
  {
    assert LeadingSpace(s) == 0;
    assert s[0..] == s;
  }

  lemma TrimDropsFinalSpace(s: string)
    requires Trimmed(s)
    ensures Trim(s + " ") == s
  {
    var t := s + " ";
    assert LeadingSpace(t) == 0;
    assert t[0..] == t;
    assert t[..|t| - 1] == s;
    assert TrailingSpace(t) == 1;
  }

  lemma TrimDropsInitialSpace(s: string)
    requires Trimmed(s)
    ensures Trim(" " + s) == s
  {
    var t := " " + s;
    assert t[1..] == s;
    assert LeadingSpace(t) == 1;
    assert TrailingSpace(s) == 0;
  }

  /** The variant name is the trimmed "size color": a trimmed size and colour
      give `size + " " + colour`, and either alone gives itself. */
  lemma {:induction false} VariantNameJoinsSizeAndColor(size: string, color: string)
    requires Trimmed(size) && Trimmed(color)
    ensures VariantName(Some(size), Some(color)) == Some(size + " " + color)
    ensures VariantName(Some(size), None) == Some(size)
    ensures VariantName(None, Some(color)) == Some(color)
  {
    SizeAndColor(size, color);
    SizeAlone(size);
    ColorAlone(color);
  }

  lemma SizeAndColor(size: string, color: string)
    requires Trimmed(size) && Trimmed(color)
    ensures VariantName(Some(size), Some(color)) == Some(size + " " + color)
  {
    var both := size + " " + color;
    assert both[0] == size[0] && both[|both| - 1] == color[|color| - 1];
    TrimKeepsTrimmed(both);
  }

  lemma SizeAlone(size: string)
    requires Trimmed(size)
    ensures VariantName(Some(size), None) == Some(size)
  {
    TrimDropsFinalSpace(size);
    assert OrEmpty(Some(size)) + " " + OrEmpty(None) == size + " ";
  }

  lemma ColorAlone(color: string)
    requires Trimmed(color)
    ensures VariantName(None, Some(color)) == Some(color)
  {
    TrimDropsInitialSpace(color);
    assert OrEmpty(None) + " " + OrEmpty(Some(color)) == " " + color;
  }

  // ---------------------------------------------------------------------------
  // Order lines are inserted at most once

  function Occurrences(xs: seq<Id>, x: Id): nat
    decreases |xs|
  {
    if |xs| == 0 then 0 else (if xs[|xs| - 1] == x then 1 else 0) + Occurrences(xs[..|xs| - 1], x)
  }

  lemma OccurrencesAppend(xs: seq<Id>, y: Id, x: Id)
    ensures Occurrences(xs + [y], x) == Occurrences(xs, x) + (if y == x then 1 else 0)
  {
    assert (xs + [y])[..|xs|] == xs;
  }

  lemma NotInNoOccurrences(xs: seq<Id>, x: Id)
    requires x !in xs
    ensures Occurrences(xs, x) == 0
    decreases |xs|
  {
    if |xs| > 0 {
      assert forall y :: y in xs[..|xs| - 1] ==> y in xs;
      NotInNoOccurrences(xs[..|xs| - 1], x);
    }
  }

  /** Every recorded insert is backed by stored lines and no order appears twice. */
  ghost predicate InsertsConsistent(s: Store) {
    forall k :: (k in s.inserts ==> HasItems(s, k)) && Occurrences(s.inserts, k) <= 1
  }

  /** How one delivery may change the lines: stored lines never change, and at
      most one insert happens, for an order that had none. */
  ghost predicate LinesGrow(s: Store, s': Store) {
    && (forall k :: HasItems(s, k) ==> ItemsOf(s', k) == ItemsOf(s, k))
    && (s'.inserts == s.inserts ||
        (|s'.inserts| == |s.inserts| + 1 && s'.inserts[..|s.inserts|] == s.inserts
         && !HasItems(s, s'.inserts[|s.inserts|]) && HasItems(s', s'.inserts[|s.inserts|])))
    && (s'.inserts == s.inserts ==> forall k :: HasItems(s, k) <==> HasItems(s', k))
    && (s'.inserts != s.inserts ==>
          forall k :: k != s'.inserts[|s.inserts|] ==> (HasItems(s, k) <==> HasItems(s', k)))
  }

  predicate SameLines(s: Store, s': Store) {
    s'.items == s.items && s'.inserts == s.inserts
  }

  lemma SameLinesGrow(s: Store, s': Store)
    requires SameLines(s, s')
    ensures LinesGrow(s, s')
  {
  }

  lemma FinalizeGrows(s: Store, orderId: Id, manifest: Option<seq<ManifestItem>>,
                      intentId: Option<Id>, faults: Faults, now: nat)
    ensures LinesGrow(s, CreateOrderItemsAndConfirm(s, orderId, manifest, intentId, faults, now))
  {
    var s' := CreateOrderItemsAndConfirm(s, orderId, manifest, intentId, faults, now);
    if s'.inserts != s.inserts {
      assert s'.inserts == s.inserts + [orderId];
      assert s'.inserts[|s.inserts|] == orderId;
      assert s'.inserts[..|s.inserts|] == s.inserts;
    } else {
      assert SameLines(s, s');
    }
  }

  lemma StepGrows(s: Store, input: Input)
    ensures LinesGrow(s, Step(s, input))
  {
    match input
    case EmailCacheExpiry(_) =>
    case Post(r) =>
      if Truthy(r.signature) && r.verified {
        match r.event
        case CheckoutSessionCompleted(sessionId, retrieved) =>
          SessionGrows(s, sessionId, retrieved, r.faults, r.now);
        case PaymentIntentSucceeded(intentId, sessions, retrieved) =>
          IntentGrows(s, intentId, sessions, retrieved, r.faults, r.now);
        case PaymentIntentFailed(_) =>
        case Unhandled(_) =>
      }
  }

  lemma SessionGrows(s: Store, sessionId: Id, retrieved: Option<Session>, faults: Faults, now: nat)
    ensures LinesGrow(s, HandleCheckoutSessionCompleted(s, sessionId, retrieved, faults, now))
  {
    if retrieved.Some? && Truthy(retrieved.value.paymentIntent) && !faults.lookupFails {
      match OrderBySession(s.orders, sessionId)
      case None =>
      case Some(orderId) =>
        if !ItemsSeen(s, orderId, faults) {
          FinalizeGrows(s, orderId, retrieved.value.manifest, retrieved.value.paymentIntent, faults, now);
        }
    }
  }

  lemma IntentGrows(s: Store, intentId: Id, sessions: SessionList, retrieved: Option<Session>,
                    faults: Faults, now: nat)
    ensures LinesGrow(s, HandlePaymentIntentSucceeded(s, intentId, sessions, retrieved, faults, now))
  {
    if sessions.FoundSession? && !faults.lookupFails && retrieved.Some? {
      match OrderBySession(s.orders, sessions.sessionId)
      case None =>
      case Some(orderId) =>
        FinalizeGrows(s, orderId, retrieved.value.manifest, Some(intentId), faults, now);
    }
  }

  lemma StepKeepsInsertsConsistent(s: Store, input: Input)
    requires InsertsConsistent(s)
    ensures InsertsConsistent(Step(s, input))
  {
    var s' := Step(s, input);
    StepGrows(s, input);
    if s'.inserts != s.inserts {
      var k := s'.inserts[|s.inserts|];
      assert s'.inserts == s.inserts + [k];
      assert k !in s.inserts;
      NotInNoOccurrences(s.inserts, k);
      forall x
        ensures (x in s'.inserts ==> HasItems(s', x)) && Occurrences(s'.inserts, x) <= 1
      {
        OccurrencesAppend(s.inserts, k, x);
      }
    }
  }

  /** From a store whose insert log is consistent (for instance an empty one),
      any sequence of deliveries, duplicated or reordered, inserts each order's
      lines at most once. */
  lemma {:induction false} ItemsInsertedAtMostOnce(s: Store, inputs: seq<Input>)
    requires InsertsConsistent(s)
    ensures InsertsConsistent(Run(s, inputs))
    ensures forall k :: Occurrences(Run(s, inputs).inserts, k) <= 1
    decreases |inputs|
  {
    if |inputs| > 0 {
      StepKeepsInsertsConsistent(s, inputs[0]);
      ItemsInsertedAtMostOnce(Step(s, inputs[0]), inputs[1..]);
    }
  }

  /** Lines, once stored, are never rewritten by any later delivery. */
  lemma {:induction false} StoredLinesAreFrozen(s: Store, inputs: seq<Input>, orderId: Id)
    requires HasItems(s, orderId)
    ensures ItemsOf(Run(s, inputs), orderId) == ItemsOf(s, orderId)
    decreases |inputs|
  {
    if |inputs| > 0 {
      StepGrows(s, inputs[0]);
      StoredLinesAreFrozen(Step(s, inputs[0]), inputs[1..], orderId);
    }
  }

  // ---------------------------------------------------------------------------
  // The e-mail guard

  /** The sender verdicts for `orderId` since its last clean-up, oldest first. */
  function Window(log: seq<MailEvent>, orderId: Id): seq<bool>
    decreases |log|
  {
    if |log| == 0 then []
    else
      var rest := Window(log[..|log| - 1], orderId);
      match log[|log| - 1]
      case Expired(o) => if o == orderId then [] else rest
      case Attempt(o, ok) => if o == orderId then rest + [ok] else rest
  }

  /** Within a window, no call follows a successful one. */
  predicate NoCallAfterSuccess(w: seq<bool>) {
    forall i :: 0 <= i < |w| - 1 ==> !w[i]
  }

  predicate EndsInSuccess(w: seq<bool>) {
    |w| > 0 && w[|w| - 1]
  }

  /** The sent set holds exactly the orders whose window ends in a success. */
  ghost predicate MailConsistent(sent: set<Id>, log: seq<MailEvent>) {
    forall k :: NoCallAfterSuccess(Window(log, k)) && (k in sent <==> EndsInSuccess(Window(log, k)))
  }

  lemma WindowAppend(log: seq<MailEvent>, e: MailEvent, k: Id)
    ensures e.Expired? ==> Window(log + [e], k) == (if e.orderId == k then [] else Window(log, k))
    ensures e.Attempt? ==> Window(log + [e], k) == (if e.orderId == k then Window(log, k) + [e.ok] else Window(log, k))
  {
    assert (log + [e])[..|log|] == log;
  }

  lemma SendKeepsMailConsistent(s: Store, orderId: Id, ok: bool)
    requires MailConsistent(s.emailSent, s.mailLog)
    ensures var s' := SendConfirmationEmailSafe(s, orderId, ok); MailConsistent(s'.emailSent, s'.mailLog)
  {
    var s' := SendConfirmationEmailSafe(s, orderId, ok);
    if orderId !in s.emailSent {
      forall k
        ensures NoCallAfterSuccess(Window(s'.mailLog, k)) && (k in s'.emailSent <==> EndsInSuccess(Window(s'.mailLog, k)))
      {
        WindowAppend(s.mailLog, Attempt(orderId, ok), k);
      }
    }
  }

  lemma ExpireKeepsMailConsistent(s: Store, orderId: Id)
    requires MailConsistent(s.emailSent, s.mailLog)
    ensures var s' := ExpireEmail(s, orderId); MailConsistent(s'.emailSent, s'.mailLog)
  {
    var s' := ExpireEmail(s, orderId);
    forall k
      ensures NoCallAfterSuccess(Window(s'.mailLog, k)) && (k in s'.emailSent <==> EndsInSuccess(Window(s'.mailLog, k)))
    {
      WindowAppend(s.mailLog, Expired(orderId), k);
    }
  }

  lemma NotifyKeepsMailConsistent(s: Store, orderId: Id, faults: Faults)
    requires MailConsistent(s.emailSent, s.mailLog)
    ensures var s' := DecrementAndNotify(s, orderId, faults); MailConsistent(s'.emailSent, s'.mailLog)
  {
    SendKeepsMailConsistent(DecrementStock(s, orderId, faults), orderId, faults.emailOk);
  }

  lemma FinalizeKeepsMailConsistent(s: Store, orderId: Id, manifest: Option<seq<ManifestItem>>,
                                    intentId: Option<Id>, faults: Faults, now: nat)
    requires MailConsistent(s.emailSent, s.mailLog)
    ensures var s' := CreateOrderItemsAndConfirm(s, orderId, manifest, intentId, faults, now);
            MailConsistent(s'.emailSent, s'.mailLog)
  {
    if Truthy(intentId) && !faults.orderUpdateFails && orderId in s.orders {
      var paid := UpdatePaidById(s, orderId, now, intentId.value, faults);
      if manifest.Some? && |manifest.value| > 0 {
        var inserted := InsertItems(paid, orderId, ToOrderItems(orderId, manifest.value), faults);
        if inserted.Some? {
          NotifyKeepsMailConsistent(inserted.value, orderId, faults);
        }
      }
    }
  }

  lemma StepKeepsMailConsistent(s: Store, input: Input)
    requires MailConsistent(s.emailSent, s.mailLog)
    ensures var s' := Step(s, input); MailConsistent(s'.emailSent, s'.mailLog)
  {
    match input
    case EmailCacheExpiry(orderId) => ExpireKeepsMailConsistent(s, orderId);
    case Post(r) =>
      if Truthy(r.signature) && r.verified {
        match r.event
        case CheckoutSessionCompleted(sessionId, retrieved) =>
          if retrieved.Some? && Truthy(retrieved.value.paymentIntent) && !r.faults.lookupFails {
            match OrderBySession(s.orders, sessionId)
            case None =>
            case Some(orderId) =>
              if ItemsSeen(s, orderId, r.faults) {
                NotifyKeepsMailConsistent(s, orderId, r.faults);
              } else {
                FinalizeKeepsMailConsistent(s, orderId, retrieved.value.manifest, retrieved.value.paymentIntent, r.faults, r.now);
              }
          }
        case PaymentIntentSucceeded(intentId, sessions, retrieved) =>
          if sessions.FoundSession? && !r.faults.lookupFails {
            match OrderBySession(s.orders, sessions.sessionId)
            case None =>
            case Some(orderId) =>
              NotifyKeepsMailConsistent(UpdatePaidById(s, orderId, r.now, intentId, r.faults), orderId, r.faults);
              if retrieved.Some? {
                FinalizeKeepsMailConsistent(s, orderId, retrieved.value.manifest, Some(intentId), r.faults, r.now);
              }
          }
        case PaymentIntentFailed(_) =>
        case Unhandled(_) =>
      }
  }

  /** Over any sequence of deliveries and timer firings, starting from a
      consistent guard (for instance an empty set and log): between two
      clean-ups of an order id, the sender is never called again for that
      order after it once reported success, so it succeeds at most once. */
  lemma {:induction false} OneConfirmationPerWindow(s: Store, inputs: seq<Input>)
    requires MailConsistent(s.emailSent, s.mailLog)
    ensures var s' := Run(s, inputs); MailConsistent(s'.emailSent, s'.mailLog)
    ensures forall k :: NoCallAfterSuccess(Window(Run(s, inputs).mailLog, k))
    decreases |inputs|
  {
    if |inputs| > 0 {
      StepKeepsMailConsistent(s, inputs[0]);
      OneConfirmationPerWindow(Step(s, inputs[0]), inputs[1..]);
    }
  }

  /** A failed send leaves the id out of the set, so the next attempt calls the sender again. */
  lemma FailedSendIsRetried(s: Store, orderId: Id, ok: bool)
    requires orderId !in s.emailSent
    ensures var s' := SendConfirmationEmailSafe(SendConfirmationEmailSafe(s, orderId, false), orderId, ok);
      s'.mailLog == s.mailLog + [Attempt(orderId, false), Attempt(orderId, ok)]
  {
  }

  /** After a success, a second confirmation for the same order is skipped. */
  lemma SecondConfirmationSkipped(s: Store, orderId: Id, ok: bool)
    ensures var once := SendConfirmationEmailSafe(s, orderId, true);
      SendConfirmationEmailSafe(once, orderId, ok) == once
  {
  }

  // ---------------------------------------------------------------------------
  // Failed payments

  /** A failed intent marks every matching order failed and cancelled,
      whatever it was before (a paid order included); repeating the event
      gives the state of a single, later delivery. */
  lemma PaymentFailedOverwritesAndIsIdempotent(s: Store, intentId: Id, f1: Faults, f2: Faults, now1: nat, now2: nat)
    requires !f2.orderUpdateFails
    ensures var once := HandlePaymentIntentFailed(s, intentId, f2, now2);
      && (forall k :: k in s.orders && s.orders[k].paymentIntentId == Some(intentId) ==>
            once.orders[k].paymentStatus == PaymentFailed && once.orders[k].status == Cancelled)
      && HandlePaymentIntentFailed(HandlePaymentIntentFailed(s, intentId, f1, now1), intentId, f2, now2) == once
  {
    var first := HandlePaymentIntentFailed(s, intentId, f1, now1);
    var twice := HandlePaymentIntentFailed(first, intentId, f2, now2);
    var once := HandlePaymentIntentFailed(s, intentId, f2, now2);
    assert twice.orders == once.orders;
  }

  // ---------------------------------------------------------------------------
  // Two delivery orders for one order "o1" (session "cs_1", intent "pi_1")
  // buying two units of variant "v1", which has 5 in stock.

  const Line := ManifestItem(Some("p1"), Some("v1"), Some("Robe"), Some("M"), None, None, 2, 5000)

  const Initial := Store(
    orders := map["o1" := Order("cs_1", None, PaymentPending, Pending, None, None)],
    items := map[],
    inventory := Stock.Inventory(map[], map["v1" := Some(5)], []),
    emailSent := {},
    mailLog := [],
    inserts := [])

  const NoFaults := Faults(false, false, false, false, Stock.StockFaults(false, {}, {}, {}), true)

  function Deliver(e: Event, now: nat): Input {
    Post(Request(Some("t=1,v1=sig"), true, e, NoFaults, now))
  }

  lemma InitialFindsOrder(s: Store)
    requires s.orders.Keys == {"o1"} && s.orders["o1"].sessionId == "cs_1"
    ensures OrderBySession(s.orders, "cs_1") == Some("o1")
  {
    FindsUniqueSession(s.orders, "cs_1", "o1");
  }

  /** Decrementing the scenario's one line takes 2 from "v1". */
  lemma LineDecrement(inv: Stock.Inventory, n: nat)
    requires inv.variantStock == map["v1" := Some(n)]
    ensures Stock.DecrementForOrder(inv, NoFaults.stock, ToOrderItems("o1", [Line])).0.variantStock
         == map["v1" := Some(if n >= 2 then n - 2 else 0)]
  {
    var item := ToOrderItem("o1", Line);
    assert ToOrderItems("o1", [Line]) == [item];
    assert Truthy(item.variantId) && item.variantId.value == "v1" && item.quantity == 2;
    var (inv1, _) := Stock.DecrementItem(inv, NoFaults.stock, item);
    assert inv1.variantStock == map["v1" := Some(if n >= 2 then n - 2 else 0)];
    assert [item][1..] == [];
    assert Stock.DecrementItems(inv1, NoFaults.stock, []).0 == inv1;
    assert Stock.DecrementItems(inv, NoFaults.stock, [item]).0 == inv1;
  }

  /** A signed delivery runs the event's handler with no faults. */
  lemma DeliverSession(s: Store, sessionId: Id, retrieved: Option<Session>, now: nat)
    ensures Step(s, Deliver(CheckoutSessionCompleted(sessionId, retrieved), now))
         == HandleCheckoutSessionCompleted(s, sessionId, retrieved, NoFaults, now)
  {
  }

  lemma DeliverIntent(s: Store, intentId: Id, sessions: SessionList, retrieved: Option<Session>, now: nat)
    ensures Step(s, Deliver(PaymentIntentSucceeded(intentId, sessions, retrieved), now))
         == HandlePaymentIntentSucceeded(s, intentId, sessions, retrieved, NoFaults, now)
  {
  }

  /** The scenario's paid session. */
  const PaidSession := Session(Some("pi_1"), Some([Line]))

  /** What the intent's finalization of the initial store leaves behind. */
  predicate Finalized(s: Store, stock: nat) {
    && s.orders.Keys == {"o1"} && s.orders["o1"].sessionId == "cs_1"
    && s.orders["o1"].paymentStatus == Paid && s.orders["o1"].paymentIntentId == Some("pi_1")
    && s.items == map["o1" := [ToOrderItem("o1", Line)]]
    && s.inventory.variantStock == map["v1" := Some(stock)]
    && s.inserts == ["o1"]
    && s.emailSent == {"o1"}
    && s.mailLog == [Attempt("o1", true)]
  }

  /** The intent, finding the session of the initial store's unpaid order,
      runs the finalization. */
  lemma IntentStepFinalizes(now: nat)
    ensures Step(Initial, Deliver(PaymentIntentSucceeded("pi_1", FoundSession("cs_1"), Some(PaidSession)), now))
         == CreateOrderItemsAndConfirm(Initial, "o1", Some([Line]), Some("pi_1"), NoFaults, now)
  {
    InitialFindsOrder(Initial);
    DeliverIntent(Initial, "pi_1", FoundSession("cs_1"), Some(PaidSession), now);
    IntentWithoutItemsFinalizes(Initial, "pi_1", "cs_1", PaidSession, NoFaults, now, "o1");
  }

  /** Finalizing the initial store stores the line, takes stock 5 -> 3 and
      sends one successful e-mail. */
  lemma FinalizeInitial(now: nat)
    ensures Finalized(CreateOrderItemsAndConfirm(Initial, "o1", Some([Line]), Some("pi_1"), NoFaults, now), 3)
  {
    FinalizeInsertsThenDecrementsThenNotifies(Initial, "o1", [Line], "pi_1", NoFaults, now);
    LineDecrement(Initial.inventory, 5);
    assert ToOrderItems("o1", [Line]) == [ToOrderItem("o1", Line)];
  }

  lemma IntentFinalizesInitial(now: nat)
    ensures Finalized(Step(Initial, Deliver(PaymentIntentSucceeded("pi_1", FoundSession("cs_1"), Some(PaidSession)), now)), 3)
  {
    IntentStepFinalizes(now);
    FinalizeInitial(now);
  }

  /** The session completes before its intent exists: nothing happens. The
      intent then arrives, finds the session and does the whole job: one
      insert, stock 5 -> 3, one successful e-mail, order paid. */
  lemma SessionFirstThenIntent()
    ensures var s1 := Step(Initial, Deliver(CheckoutSessionCompleted("cs_1", Some(Session(None, Some([Line])))), 1));
      && s1 == Initial
      && var s2 := Step(s1, Deliver(PaymentIntentSucceeded("pi_1", FoundSession("cs_1"), Some(PaidSession)), 2));
         && s2.inserts == ["o1"]
         && s2.items == map["o1" := [ToOrderItem("o1", Line)]]
         && s2.inventory.variantStock == map["v1" := Some(3)]
         && s2.mailLog == [Attempt("o1", true)]
         && "o1" in s2.orders && s2.orders["o1"].paymentStatus == Paid && s2.orders["o1"].paymentIntentId == Some("pi_1")
  {
    DeliverSession(Initial, "cs_1", Some(Session(None, Some([Line]))), 1);
    SessionWithoutIntentOrOrderIsIgnored(Initial, "cs_1", Session(None, Some([Line])), NoFaults, 1);
    IntentFinalizesInitial(2);
  }

  /** A completed session for the finalized order inserts nothing and skips
      the e-mail, but takes the line's two units from stock once more. */
  lemma SessionAfterFinalization(s: Store, now: nat)
    requires Finalized(s, 3)
    ensures var s' := Step(s, Deliver(CheckoutSessionCompleted("cs_1", Some(PaidSession)), now));
      && s'.inserts == ["o1"] && s'.mailLog == [Attempt("o1", true)]
      && s'.inventory.variantStock == map["v1" := Some(1)]
  {
    DeliverSession(s, "cs_1", Some(PaidSession), now);
    InitialFindsOrder(s);
    assert ItemsOf(s, "o1") == ToOrderItems("o1", [Line]);
    SessionWithExistingItems(s, "cs_1", PaidSession, NoFaults, now, "o1");
    LineDecrement(s.inventory, 3);
  }

  /** The intent arrives first and finalizes through the backup path; the
      session then finds a paid order with lines, inserts nothing and skips the
      e-mail (still in the sent set) but decrements stock a second time: the
      source re-runs the decrement in that branch, so stock ends at 1, not 3. */
  lemma IntentFirstThenSessionDecrementsTwice()
    ensures var s1 := Step(Initial, Deliver(PaymentIntentSucceeded("pi_1", FoundSession("cs_1"), Some(PaidSession)), 1));
      && s1.inventory.variantStock == map["v1" := Some(3)]
      && var s2 := Step(s1, Deliver(CheckoutSessionCompleted("cs_1", Some(PaidSession)), 2));
         && s2.inserts == ["o1"]
         && s2.mailLog == [Attempt("o1", true)]
         && s2.inventory.variantStock == map["v1" := Some(1)]
  {
    var s1 := Step(Initial, Deliver(PaymentIntentSucceeded("pi_1", FoundSession("cs_1"), Some(PaidSession)), 1));
    IntentFinalizesInitial(1);
    SessionAfterFinalization(s1, 2);
  }
}
