/** Rows of the `orders` and `order_items` tables as the payment webhook and the
    stock decrement read and write them. */
module Orders {
  import opened Base

  /** Row identifiers (UUIDs, Stripe ids) are opaque strings. */
  type Id = string

  datatype PaymentStatus = PaymentPending | Paid | PaymentFailed

  datatype OrderStatus = Pending | Processing | Shipped | Delivered | Cancelled

  /** One `orders` row, reduced to the columns the webhook reads or writes.
      Timestamps are milliseconds since the epoch. */
  datatype Order = Order(
    sessionId: Id,                 // stripe_session_id
    paymentIntentId: Option<Id>,   // payment_intent_id, null until assigned
    paymentStatus: PaymentStatus,
    status: OrderStatus,
    paidAt: Option<nat>,
    cancelledAt: Option<nat>)

  /** One `order_items` row: a snapshot of a cart line. Prices are in cents. */
  datatype OrderItem = OrderItem(
    orderId: Id,
    productId: Option<Id>,
    variantId: Option<Id>,
    productName: Option<string>,
    variantName: Option<string>,
    imageUrl: Option<string>,
    quantity: int,
    unitPrice: int,
    totalPrice: int)
}
