# Blanche Renaudin storefront: a verified model of its decision logic

This project models, in Dafny, the parts of the Blanche Renaudin monorepo
that make decisions. Each part is modelled over values instead of a
database, a payment gateway or a file system:

- the Stripe payment webhook, which reconciles an order with the
  checkout session and payment intent that pay for it;
- the stock decrement that runs after a payment;
- the formatting and validation helpers of `packages/utils`;
- the storefront's primary-image and image-ordering helpers;
- the repository tree printer `scripts/generate-tree.js`;
- the newsletter sign-up endpoint;
- the category tool's listing, lookup and delete guard;
- the `products/by-ids` endpoint.

Each endpoint is a pure function from a state and a request to a new state
and a response. Anything the code learns from outside is a field of the
request:

- the signature verdict and the answers of the Stripe API;
- which database calls fail;
- whether the mail sender succeeds;
- the clock.

The webhook's in-process "e-mail already sent" set is part of the state.
Its five-minute clean-up timer is a separate input, `EmailCacheExpiry`, so
any order of deliveries and timer firings can be replayed with
`StripeWebhook.Run`.

Files:

- `base.dfy`: `Option`, JavaScript truthiness of optional strings,
  `String.prototype.trim`, and filtering and counting.
- `orders.dfy`: the `orders` and `order_items` rows.
- `stock.dfy`: `decrementStockForOrder` and its helpers, as a fold and as a
  loop.
- `webhook.dfy`: the webhook's handlers, `Step` and `Run`.
- `webhook_props.dfy`: the webhook's branch-by-branch effects, its
  at-most-once and e-mail-window invariants, and two delivery scenarios.
- `formatters.dfy`, `validators.dfy`: `formatPhone`, `truncate`, `slugify`,
  the phone and postal-code patterns, and `validate`.
- `sorting.dfy`: a stable insertion sort standing in for
  `Array.prototype.sort` and SQL `order by`.
- `images.dfy`: `getPrimaryImage` and `getSortedImages` from `lib/types.ts`,
  and `getPrimaryImage` from `lib/product-helpers.ts`.
- `tree.dfy`: `shouldIgnore`, `getFileIcon`, `generateTree` and
  `countItems` over a directory value.
- `newsletter.dfy`: `POST /api/newsletter/subscribe`.
- `categories.dfy`: `listCategories`, `getCategory` and `deleteCategory`.
- `byids.dfy`: `GET /api/products/by-ids`.

Money is in integer cents. Timestamps are milliseconds as natural numbers.

## Model

| member | source | states |
|---|---|---|
| StripeWebhook.HandlePost | apps/storefront/app/api/webhooks/stripe/route.ts:59-96 | A missing signature answers 400 "Missing signature". An unverifiable one answers 400. Both leave the store unchanged. Every verified event is acknowledged, and an unhandled event type changes nothing. |
| StripeWebhook.OrderBySession | apps/storefront/app/api/webhooks/stripe/route.ts:125-136 | `.single()` finds an order exactly when one order carries the session id, and then it is that order. |
| StripeWebhook.FindsUniqueSession | apps/storefront/app/api/webhooks/stripe/route.ts:125-131 | A session id carried by exactly one order finds that order. |
| StripeWebhook.UpdatePaidById | apps/storefront/app/api/webhooks/stripe/route.ts:301-314 | The update by id sets paid, processing, `paid_at` and the intent id on that order alone. A failed update writes nothing. |
| StripeWebhook.UpdateByIntent | apps/storefront/app/api/webhooks/stripe/route.ts:389-396 | The update by `payment_intent_id` rewrites every order carrying that intent and no other. A failed update writes nothing. |
| StripeWebhook.SendConfirmationEmailSafe | apps/storefront/app/api/webhooks/stripe/route.ts:21-55 | An order already in the sent set is skipped. Otherwise the sender is called once. The id joins the set only on a reported success. |
| StripeWebhook.ExpireEmail | apps/storefront/app/api/webhooks/stripe/route.ts:41-48 | The clean-up timer removes exactly that id from the sent set and touches no table. |
| StripeWebhook.ToOrderItems | apps/storefront/app/api/webhooks/stripe/route.ts:336-349 | One order line per manifest entry, in order, each mapped from its own entry. |
| Base.Trim | apps/storefront/app/api/webhooks/stripe/route.ts:343 | `String.prototype.trim` cuts only white space, from both ends, and leaves a result that neither starts nor ends with white space. |
| StripeWebhook.VariantName | apps/storefront/app/api/webhooks/stripe/route.ts:341-344 | No contract of its own. It is stated by `VariantNameJoinsSizeAndColor` and `OrderItemMapping`. |
| StripeWebhook.InsertItems | apps/storefront/app/api/webhooks/stripe/route.ts:351-363 | No contract of its own. A duplicate or failed insert writes nothing (`FinalizeDuplicateKeyStops`); a successful one stores the lines and records one insert (`FinalizeInsertsThenDecrementsThenNotifies`). |
| StripeWebhook.DecrementStock | apps/storefront/app/api/webhooks/stripe/route.ts:156 | Only the stock changes: orders, lines, the sent set and the logs stay. The ledger keeps its old rows as a prefix, and every variant or product counter that no line of the order names keeps its value. |
| StripeWebhook.CreateOrderItemsAndConfirm | apps/storefront/app/api/webhooks/stripe/route.ts:283-384 | No contract of its own. Its branches are stated by the `Finalize...` lemmas. |
| StripeWebhook.HandleCheckoutSessionCompleted | apps/storefront/app/api/webhooks/stripe/route.ts:104-184 | No contract of its own. Its branches are stated by `SessionWithoutIntentOrOrderIsIgnored` and `SessionWithExistingItems`. |
| StripeWebhook.HandlePaymentIntentSucceeded | apps/storefront/app/api/webhooks/stripe/route.ts:186-281 | No contract of its own. Its branches are stated by `IntentWithoutSessionMarksPaid`, `IntentForPaidOrderIsIgnored`, `IntentWithExistingItems` and `IntentWithoutItemsFinalizes`. |
| StripeWebhook.HandlePaymentIntentFailed | apps/storefront/app/api/webhooks/stripe/route.ts:386-399 | No contract of its own. It is stated by `PaymentFailedOverwritesAndIsIdempotent`. |
| StripeWebhook.Step | apps/storefront/app/api/webhooks/stripe/route.ts:59-96 | No contract of its own: one request, or one firing of the clean-up timer of lines 41-48. |
| StripeWebhook.Run | apps/storefront/app/api/webhooks/stripe/route.ts:59-96 | No contract of its own: deliveries in order. The invariants over it are `ItemsInsertedAtMostOnce`, `StoredLinesAreFrozen` and `OneConfirmationPerWindow`. |
| StripeWebhookProperties.SessionWithoutIntentOrOrderIsIgnored | apps/storefront/app/api/webhooks/stripe/route.ts:110-136 | A completed session with no payment intent, or one no single order carries, leaves the store unchanged. |
| StripeWebhookProperties.SessionWithExistingItems | apps/storefront/app/api/webhooks/stripe/route.ts:148-172 | A completed session for an order that has lines never inserts lines. If the order is paid, it decrements stock over those lines and attempts the e-mail unless one was already sent. Otherwise it changes nothing. |
| StripeWebhookProperties.IntentWithoutSessionMarksPaid | apps/storefront/app/api/webhooks/stripe/route.ts:199-210 | With no session for the intent, every order carrying the intent becomes paid and processing with `paid_at` set. No line, stock or e-mail changes. |
| StripeWebhookProperties.IntentForPaidOrderIsIgnored | apps/storefront/app/api/webhooks/stripe/route.ts:230-239 | An intent whose session's order is already paid changes nothing. |
| StripeWebhookProperties.IntentWithExistingItems | apps/storefront/app/api/webhooks/stripe/route.ts:250-264 | An intent for an unpaid order that has lines marks it paid with the intent id, decrements its stock, and attempts the e-mail. No line is inserted. |
| StripeWebhookProperties.IntentWithoutItemsFinalizes | apps/storefront/app/api/webhooks/stripe/route.ts:265-273 | Otherwise the intent handler runs the full finalization with its own intent id. |
| StripeWebhookProperties.FinalizeStopsOnUpdateError | apps/storefront/app/api/webhooks/stripe/route.ts:301-314 | If the paid-status write fails, finalization changes nothing. |
| StripeWebhookProperties.FinalizeStopsOnBadManifest | apps/storefront/app/api/webhooks/stripe/route.ts:320-332 | An unparseable or empty manifest stops right after the status write. The order is left paid with no lines. |
| StripeWebhookProperties.FinalizeDuplicateKeyStops | apps/storefront/app/api/webhooks/stripe/route.ts:356-363 | A duplicate-key insert (the order already has lines) changes no line, no stock and no e-mail state. |
| StripeWebhookProperties.FinalizeInsertsThenDecrementsThenNotifies | apps/storefront/app/api/webhooks/stripe/route.ts:351-378 | A successful finalization marks the order paid and stores the mapped manifest as its lines, with one insert recorded. It then decrements stock over exactly those lines and attempts the e-mail. |
| StripeWebhookProperties.OrderItemMapping | apps/storefront/app/api/webhooks/stripe/route.ts:336-349 | `total_price` is price times quantity. A missing variant id, name or image becomes null. The variant name is null exactly when size and colour are both missing. |
| StripeWebhookProperties.VariantNameJoinsSizeAndColor | apps/storefront/app/api/webhooks/stripe/route.ts:341-344 | The variant name is the trimmed `"size color"`. With trimmed parts it is `size + " " + color`, or the one part that is present. |
| StripeWebhookProperties.ItemsInsertedAtMostOnce | apps/storefront/app/api/webhooks/stripe/route.ts:351-363 | From a consistent store, any sequence of deliveries and timer firings inserts each order's lines at most once. |
| StripeWebhookProperties.StoredLinesAreFrozen | apps/storefront/app/api/webhooks/stripe/route.ts:142-148 | Once an order has lines, no later delivery changes them. |
| StripeWebhookProperties.OneConfirmationPerWindow | apps/storefront/app/api/webhooks/stripe/route.ts:26-48 | From a consistent start, over any sequence of inputs: between two clean-ups of an order id, the sender is never called again after a success. The sent set keeps holding exactly the orders whose current window ends in a success. |
| StripeWebhookProperties.FailedSendIsRetried | apps/storefront/app/api/webhooks/stripe/route.ts:49-51 | After a failed send, the next attempt calls the sender again. |
| StripeWebhookProperties.SecondConfirmationSkipped | apps/storefront/app/api/webhooks/stripe/route.ts:26-31 | After a successful send, a second attempt for the same order changes nothing. |
| StripeWebhookProperties.PaymentFailedOverwritesAndIsIdempotent | apps/storefront/app/api/webhooks/stripe/route.ts:386-396 | A failed intent marks every matching order failed and cancelled, whatever its status, paid included. Applying it twice gives the state of the later delivery alone. |
| StripeWebhookProperties.SessionFirstThenIntent | apps/storefront/app/api/webhooks/stripe/route.ts:115-119 | A session that completes before its intent exists does nothing. The intent then finalizes: one insert, stock 5 to 3, one successful e-mail, order paid with the intent id. |
| StripeWebhookProperties.IntentFirstThenSessionDecrementsTwice | apps/storefront/app/api/webhooks/stripe/route.ts:151-157 | When the intent arrives first and the session second, the session inserts nothing and sends nothing, but decrements the stock again: 5 to 3 to 1. |
| Stock.ClampedStock | packages/database/src/stock/decrement-stock.ts:154-155 | The new stock is never negative. It is the current stock (null counts as 0) minus the quantity, unless that would be negative, in which case it is 0. |
| Stock.DecrementVariant | packages/database/src/stock/decrement-stock.ts:136-183 | A missing variant fails with "Variant not found", and a failed write fails. Both change nothing. On success only that variant's counter is set, to the clamped stock, and the ledger gains one row with delta minus the quantity unless its insert fails. A failed ledger insert leaves the outcome a success. |
| Stock.DecrementProduct | packages/database/src/stock/decrement-stock.ts:188-235 | A missing product fails with "Product not found", and a failed write fails. On success only that product's counter is set, to the clamped stock. The ledger is never touched. |
| Stock.DecrementItem | packages/database/src/stock/decrement-stock.ts:99-131 | A variant id wins: the product counters stay. Without one, a product id is used and the variant counters stay. A line with neither fails with "No product_id or variant_id". A failed line changes nothing. Every counter other than the line's own variant or product keeps its value. |
| Stock.DecrementItems | packages/database/src/stock/decrement-stock.ts:44-67 | Every line is processed. The success count is the number of lines that succeed, and successes plus errors make up all the lines. |
| Base.Count | packages/database/src/stock/decrement-stock.ts:48-67 | The count never exceeds the length. That it is the number of elements satisfying the predicate is `CountIsFilterLength`. |
| Base.CountIsFilterLength | packages/database/src/stock/decrement-stock.ts:48-67 | The count equals the length of the filtered sequence, so the success count is the number of succeeding lines. |
| Stock.DecrementForOrder | packages/database/src/stock/decrement-stock.ts:22-94 | A failed fetch is a critical error that changes no stock. No lines give success with 0 decremented and no change. Otherwise `decremented` plus the errors equal the lines, and `success` holds exactly when the error list is empty. |
| Stock.DecrementStockForOrder | packages/database/src/stock/decrement-stock.ts:44-86 | The loop with a running count and error list computes the same stock and result as the fold. |
| Stock.StockFloor | packages/database/src/stock/decrement-stock.ts:154-155 | After a batch, every counter is either untouched or a non-negative value. |
| Stock.NonNegativePreserved | packages/database/src/stock/decrement-stock.ts:206-207 | Stock that starts non-negative stays non-negative, whatever the lines, quantities or failures. |
| Stock.ErrorsAreFailingLines | packages/database/src/stock/decrement-stock.ts:48-67 | The reported errors are exactly the failing lines, in order, each with the line's product name and its reason. |
| Stock.LedgerAppendOnly | packages/database/src/stock/decrement-stock.ts:172-173 | The ledger only grows, by one row for each successful variant line whose insert does not fail. |
| Stock.LedgerRowsFromVariantLines | packages/database/src/stock/decrement-stock.ts:246-251 | Every ledger row comes from a line with a variant id, and records that variant and minus that line's quantity. |
| Stock.ProductLinesWriteNoLedger | packages/database/src/stock/decrement-stock.ts:224-225 | An order whose lines have no variant id leaves the ledger unchanged. |
| Stock.UnnamedCountersKept | packages/database/src/stock/decrement-stock.ts:163-165 | Each write targets its own row, so a variant or product counter that no line names keeps its value, and the ledger only grows. |
| Stock.ItemsKeepUnnamed | packages/database/src/stock/decrement-stock.ts:44-67 | Over the per-line loop, a counter that no line names keeps its value. |
| Stock.FailingLineIsolated | packages/database/src/stock/decrement-stock.ts:48-67 | Dropping a failing line from the batch changes neither the resulting stock and ledger nor the success count. |
| Formatters.FormatPhone | packages/utils/src/formatters.ts:24-31 | Input with exactly ten digits gives fourteen characters: the digits in order as five pairs, with a space at every third position. Any other input comes back unchanged. |
| Formatters.FormatPhoneIdempotent | packages/utils/src/formatters.ts:24-31 | Formatting keeps exactly the input's digits, so formatting twice equals formatting once. |
| Formatters.Truncate | packages/utils/src/formatters.ts:36-39 | Text of at most `length` code points is kept. Longer text becomes its first `length` code points plus `"..."`, which is `length + 3` long. A negative limit counts from the end, as `slice` does. |
| Formatters.TruncateSettles | packages/utils/src/formatters.ts:36-39 | A truncated text is at most `length + 3` long and is kept by a second truncation to `length + 3`. |
| Formatters.Slugify | packages/utils/src/formatters.ts:44-51 | On ASCII text the slug is the lower-cased text's maximal `[a-z0-9]` runs joined by single hyphens. It uses only `[a-z0-9-]`, with no hyphen at either end and no two hyphens in a row. |
| Formatters.WordsOfJoin | packages/utils/src/formatters.ts:49-50 | Hyphen-joining words and splitting the result gives the words back. |
| Formatters.JoinIsSlug | packages/utils/src/formatters.ts:49-50 | Hyphen-joined words form a slug. |
| Formatters.SlugifyIdempotent | packages/utils/src/formatters.ts:44-51 | A slug is ASCII and slugifies to itself. |
| Validators.MatchDigits | packages/utils/src/validators.ts:18-20 | `^[0-9]{5}$` accepts exactly the strings of five ASCII digits. |
| Validators.ParsePhone | packages/utils/src/validators.ts:11-13 | A recognised number is the rendering of well-formed parts. The parts are the prefix `0`, `+33` or `0033`, optional white space, a digit 1 to 9, and four two-digit groups, each after a possibly empty run of white space, `.` or `-`. |
| Validators.ParseRenderPhone | packages/utils/src/validators.ts:11-13 | Every rendering of well-formed parts is recognised and parsed back to those parts, so the recogniser accepts exactly these renderings. |
| Validators.RejectsZeroAfterPrefix | packages/utils/src/validators.ts:13 | `0012345678` is rejected. |
| Validators.AcceptsSpacedNational | packages/utils/src/validators.ts:13 | `06 12 34 56 78` is accepted. |
| Validators.AcceptsDottedInternational | packages/utils/src/validators.ts:13 | `+33 6.12.34.56.78` is accepted. |
| Validators.Validate | packages/utils/src/validators.ts:33-41 | Success exactly when the schema parses, carrying its data. Otherwise one message per issue, in the schema's order. |
| Validators.PostalCodeSchema | packages/utils/src/validators.ts:18-20 | No contract of its own. It is stated by `ValidatePostalCode`. |
| Validators.PhoneSchema | packages/utils/src/validators.ts:11-13 | No contract of its own. It is stated by `ValidatePhone`. |
| Validators.ValidatePostalCode | packages/utils/src/validators.ts:18-20 | A five-digit string validates to itself. Anything else gives the single message "Code postal invalide". |
| Validators.ValidatePhone | packages/utils/src/validators.ts:11-13 | A string validates exactly when it renders some well-formed phone parts. Otherwise it gives the phone message. |
| ProductImages.FirstPrimary | apps/storefront/lib/types.ts:83 | None exactly when no image is primary. Otherwise the primary image with no primary image before it. |
| StorefrontTypes.GetSortedImages | apps/storefront/lib/types.ts:96-104 | Absent or empty images give `[]`. Otherwise a permutation of the images. |
| StorefrontTypes.SortedImagesOrdered | apps/storefront/lib/types.ts:101-103 | The sorted images are non-decreasing in `sort_order ?? 999`. For every key, the images with that key keep their original order. |
| StorefrontTypes.GetPrimaryImage | apps/storefront/lib/types.ts:77-93 | Null exactly when images are absent or empty. Otherwise an element of the images, and the first primary image when there is one. |
| StorefrontTypes.PrimaryFallsBackToLeastKey | apps/storefront/lib/types.ts:89-92 | Without a primary image, the result has the least `sort_order ?? 999`, and no earlier image has that key. |
| ProductHelpers.GetPrimaryImage | apps/storefront/lib/product-helpers.ts:4-11 | Null exactly when images are absent or empty. Otherwise the first primary image, or `images[0]` when none is primary, always an element of the images. |
| ProductHelpers.HelpersAgree | apps/storefront/lib/product-helpers.ts:9-10 | The two helpers agree whenever an image is primary. Without one, they agree exactly when the first image has the least sort key. |
| ProjectTree.ShouldIgnore | scripts/generate-tree.js:23-37 | A name is ignored exactly when it is hidden (other than `.gitignore` and `.env.example`) or one of the fifteen patterns matches it. |
| ProjectTree.LogPatternIsUnanchored | scripts/generate-tree.js:31-33 | `*.log` becomes the unanchored `.*.log`, so `catalog` is ignored as well as `app.log`. |
| ProjectTree.LiteralPatternIsExact | scripts/generate-tree.js:35 | A literal pattern needs the whole name: `node_modules` is ignored and `node_modules2` is not. |
| ProjectTree.HiddenNames | scripts/generate-tree.js:25-27 | `.vscode` is ignored as a hidden name. |
| ProjectTree.GitignoreIsListed | scripts/generate-tree.js:25 | `.gitignore` is not ignored. |
| ProjectTree.EnvExampleIsListed | scripts/generate-tree.js:25 | `.env.example` is not ignored. |
| ProjectTree.ExtName | scripts/generate-tree.js:69 | The extension is empty exactly when no character after the first is a dot, or the name is `..`. Otherwise it is a proper suffix of the name that starts with a dot and has no other dot, so it starts at the last dot. |
| ProjectTree.GetFileIcon | scripts/generate-tree.js:101-123 | An extension in the table gets its icon. Any other gets the page icon 📄. The icon is never empty. |
| ProjectTree.IconExamples | scripts/generate-tree.js:69-71 | `route.ts` gets 🔷. `README`, `archive.tar.gz` and `.gitignore` get the page icon. |
| ProjectTree.Line | scripts/generate-tree.js:62-72 | A printed line is the prefix, then `└── ` for the last entry and `├── ` for any other, then 📁, a space, the name and `/` for a directory, or the extension's icon, a space and the name for a file. |
| ProjectTree.ChildPrefix | scripts/generate-tree.js:90 | A child's prefix is the parent's prefix followed by four blanks under a last entry, or by `│` and three blanks under any other. |
| ProjectTree.VisibleOf | scripts/generate-tree.js:77-78 | The kept entries are exactly the entries `shouldIgnore` does not reject. |
| ProjectTree.Listing | scripts/generate-tree.js:77-85 | The listed children are exactly the children that are not ignored, each as often as it occurs. |
| ProjectTree.GenerateTree | scripts/generate-tree.js:48-99 | Nothing past the depth limit or for an ignored entry, subtree included. Otherwise the first line is the entry's own. A file prints exactly one line. |
| ProjectTree.TwoListedLines | scripts/generate-tree.js:87-92 | A shown directory with two listed children prints its own line, the first child's lines drawn with `├── ` and the second's drawn with `└── `, both under the child prefix. |
| ProjectTree.LinesKeepPrefix | scripts/generate-tree.js:87-92 | Every line printed for an entry, at any depth, starts with the prefix it was given. |
| ProjectTree.DirectoriesFirst | scripts/generate-tree.js:79-85 | Under a total order on names, every listed directory precedes every listed file. Entries of the same kind follow the name order. |
| ProjectTree.CountItems | scripts/generate-tree.js:125-147 | No contract of its own. `CountItemsOfDir` states each of its two counts, and `CountIsVisibleWeight` their sum. |
| ProjectTree.CountItemsOfDir | scripts/generate-tree.js:125-147 | For a directory, `files` is the number of visible files below it at any depth, and `dirs` the number of visible directories below it, itself excluded. Both are counted by definitions independent of `countItems`. |
| ProjectTree.CountSplits | scripts/generate-tree.js:127-143 | Over any entries of a directory, the two counters are the files and the directories of the visible entries' subtrees. |
| ProjectTree.CountIsVisibleWeight | scripts/generate-tree.js:125-147 | `countItems` counts each non-ignored entry and everything below it, at any depth. |
| ProjectTree.LinesMatchCount | scripts/generate-tree.js:125-147 | When the whole subtree fits within the depth limit, a visible entry prints one line of its own plus one line per file and directory that `countItems` counts below it. |
| NewsletterSubscribe.Lookup | apps/storefront/app/api/newsletter/subscribe/route.ts:20-24 | A subscriber is found exactly when the query succeeds and one row has the address, and then it is that row. |
| NewsletterSubscribe.Reactivate | apps/storefront/app/api/newsletter/subscribe/route.ts:36-39 | The row with that id becomes pending with `unsubscribed_at` cleared. Every other row stays. |
| NewsletterSubscribe.NewSubscriber | apps/storefront/app/api/newsletter/subscribe/route.ts:43-52 | No contract of its own. The inserted row is stated by `NewAddressIsInserted`. |
| NewsletterSubscribe.ConfirmUrl | apps/storefront/app/api/newsletter/subscribe/route.ts:57-68 | The link is the base URL, or the default site when none is set, then the confirm path, then the token for the address expiring a day (86 400 000 ms) after now. |
| NewsletterSubscribe.Confirm | apps/storefront/app/api/newsletter/subscribe/route.ts:72-86 | No contract of its own. The mail it hands over and the answer are stated by `Subscribe`, `LinkExpiresInADay` and `SendFailureKeepsWrite`. |
| NewsletterSubscribe.Subscribe | apps/storefront/app/api/newsletter/subscribe/route.ts:14-101 | Unreadable JSON answers 500 with nothing written. A schema failure answers 400 with the first issue. The answer is a success exactly when the body is valid, a mail was handed to the sender, and the send did not fail. Any mail goes to the body's address. |
| NewsletterSubscribe.ActiveIsRefused | apps/storefront/app/api/newsletter/subscribe/route.ts:26-32 | An active subscriber gets 409 "Cet email est déjà inscrit", with no write and no mail. |
| NewsletterSubscribe.UnsubscribedIsReactivated | apps/storefront/app/api/newsletter/subscribe/route.ts:35-40 | An unsubscribed subscriber's row, and only that row, becomes pending with `unsubscribed_at` cleared, and the mail is sent. |
| NewsletterSubscribe.OtherStatusResends | apps/storefront/app/api/newsletter/subscribe/route.ts:26-41 | A subscriber in any other status, pending for example, is not written, and the confirmation is sent again. |
| NewsletterSubscribe.NewAddressIsInserted | apps/storefront/app/api/newsletter/subscribe/route.ts:43-54 | A new address is appended as one pending row with source `website_footer` and the forwarded address as consent IP. A failed insert answers 500 with no write and no mail. |
| NewsletterSubscribe.LinkExpiresInADay | apps/storefront/app/api/newsletter/subscribe/route.ts:58-68 | The mailed link is the base URL, or `https://www.blancherenaudin.com` when none is set, followed by `/api/newsletter/confirm?token=` and the token for the address with expiry now + 86 400 000 ms. |
| NewsletterSubscribe.SendFailureKeepsWrite | apps/storefront/app/api/newsletter/subscribe/route.ts:73-81 | A failed send answers 500, but the inserted row stays. |
| NewsletterSubscribe.SecondSignUpWritesNothing | apps/storefront/app/api/newsletter/subscribe/route.ts:20-55 | Signing up a new address twice writes one row. The second request writes nothing and sends the confirmation again. |
| Categories.LiveProducts | packages/tools/categories/src/api/categories.ts:175-179 | The count is the number of products whose `category_id` is the id and whose `deleted_at` is null. It is zero exactly when there are none. |
| Categories.Children | packages/tools/categories/src/api/categories.ts:185-188 | The count is the number of categories whose `parent_id` is the id, and, when only active ones are asked for, whose `is_active` is true. It is zero exactly when there are none. |
| Categories.ActiveChildrenAreFewer | packages/tools/categories/src/api/categories.ts:44-48 | The active-children count never exceeds the count of all children. |
| Categories.WithCounts | packages/tools/categories/src/api/categories.ts:81-97 | The row keeps the category. `product_count` is the number of its live products, and `subcategory_count` the number of its active children. A count whose query fails for that category shows as 0, as `count \|\| 0` gives. |
| Categories.Selected | packages/tools/categories/src/api/categories.ts:15-29 | Exactly the categories that match every given filter. |
| Categories.NameContains | packages/tools/categories/src/api/categories.ts:15-17 | No contract of its own: the `ilike '%search%'` test as a case-folded substring test. It is used by `Selected`. |
| Categories.Matches | packages/tools/categories/src/api/categories.ts:15-29 | No contract of its own: the conjunction of the given filters. What it selects is stated by `Selected` and `ListedAreMatchingAndOrdered`. |
| Categories.ListCategories | packages/tools/categories/src/api/categories.ts:5-66 | A failed query gives `[]` and the error. Otherwise there is no error, and the rows are a permutation of the matching categories. Each row carries its own counts: a failed count query shows 0 for that category alone, while every other row keeps its real count. |
| Categories.ListedAreMatchingAndOrdered | packages/tools/categories/src/api/categories.ts:9-29 | Every listed category matches the filters, and every matching category is listed. The list is ordered by `sort_order` ascending with nulls last, then by name. |
| Categories.RootsFilterGivesRoots | packages/tools/categories/src/api/categories.ts:23-25 | `parent_id: null` lists only root categories. |
| Categories.GetCategory | packages/tools/categories/src/api/categories.ts:68-108 | A category is returned exactly when the query succeeds and one row has the id. It is then that row with its counts. |
| Categories.DeleteCategory | packages/tools/categories/src/api/categories.ts:170-209 | Live products refuse with "Cannot delete category with products" before anything else is checked. Otherwise any child, active or not, refuses with "Cannot delete category with subcategories". Deletion happens exactly when neither count blocks and the delete succeeds. It then removes exactly the rows with that id, and a refusal changes nothing. |
| Categories.WithoutId | packages/tools/categories/src/api/categories.ts:194-197 | The remaining categories are exactly those with another id. |
| Categories.DeleteGuard | packages/tools/categories/src/api/categories.ts:175-192 | With every query answering, deletion happens exactly when no live product uses the category and no category names it as parent. |
| Categories.SoftDeletedProductsDoNotBlock | packages/tools/categories/src/api/categories.ts:175-183 | Adding a soft-deleted product of the category does not change the delete outcome. |
| Categories.InactiveChildBlocksDeletion | packages/tools/categories/src/api/categories.ts:185-192 | A category whose only child is inactive shows `subcategory_count` 0 yet cannot be deleted. |
| ProductsByIds.Split | apps/storefront/app/api/products/by-ids/route.ts:17 | `split(',')` gives at least one piece, and no piece contains a comma. |
| ProductsByIds.Join | apps/storefront/app/api/products/by-ids/route.ts:17 | `join(',')` puts at least one character between pieces. It is the inverse of `Split`, as `JoinSplit` and `SplitJoin` state. |
| ProductsByIds.JoinSplit | apps/storefront/app/api/products/by-ids/route.ts:17 | Joining the pieces with commas gives the parameter back. |
| ProductsByIds.SplitJoin | apps/storefront/app/api/products/by-ids/route.ts:17 | Comma-free pieces joined with commas split back into the same pieces. |
| ProductsByIds.Ids | apps/storefront/app/api/products/by-ids/route.ts:17 | The ids are non-empty and contain no comma. |
| ProductsByIds.IdsSpellParameter | apps/storefront/app/api/products/by-ids/route.ts:17 | Read one after another, the ids are the parameter with its commas removed, so their order is kept. |
| ProductsByIds.NoIdsOnlyCommas | apps/storefront/app/api/products/by-ids/route.ts:19-21 | There are no ids exactly when the parameter consists only of commas. |
| ProductsByIds.Selected | apps/storefront/app/api/products/by-ids/route.ts:33-34 | Exactly the products whose id is listed and whose `is_active` is true. |
| ProductsByIds.GetByIds | apps/storefront/app/api/products/by-ids/route.ts:5-47 | A 400 "IDs parameter required" exactly when the parameter is absent or empty. A parameter with no ids answers no products. Otherwise the answer is the selected products, or a 500 with the reported message, or "Internal server error" when the query throws. |
| ProductsByIds.IdsExamples | apps/storefront/app/api/products/by-ids/route.ts:17-21 | `a,,b,` gives the ids `a` and `b`. `,,` gives none. |

## Left out

- Stripe signature checking is a boolean verdict in the request. `constructEvent`'s error text is not modelled; an unverifiable signature answers a fixed message.
- The Stripe session retrieve and list calls are answers in the request. A throwing retrieve, or a failed or empty list, is one of those answers.
- The Supabase clients are not modelled. Tables are maps and sequences, and query failures are booleans in the request.
- The uniqueness constraint on an order's lines is assumed. An insert for an order that already has lines fails as a duplicate.
- Concurrency is not modelled. Deliveries are handled one after another, and the five-minute `setTimeout` is the explicit `EmailCacheExpiry` input.
- Logging and the random attempt id are not modelled.
- Floating-point prices are not modelled. Prices are integer cents, so `price * quantity` is exact.
- `parseAddress` is not modelled, because the webhook does not act on addresses.
- `JSON.parse` of the manifest is the `Option` in the session: `None` when it does not parse.
- Error texts that come from the database or an exception are not modelled. Examples are `updateError.message` and `Unknown error`, and a failed stock write reports the fixed "Update failed". The batch's error strings are structured reports (product name and reason) with their text given by `Message`.
- Stock.DecrementForOrder: the critical error's message is fixed, not the database's error text.
- Stock.StockFaults: a write or ledger fault is a set of ids that holds for the whole batch, so two lines naming the same variant or product fail or succeed alike, where each source call can fail on its own.
- Stock.StockFaults: a failed read of an existing row is not expressible. The source reports it as "Variant not found" or "Product not found" (decrement-stock.ts lines 142-152 and 194-204); the model gives that report only for a missing row.
- Formatters.Truncate: counts code points, while JavaScript's `length` and `slice` count UTF-16 code units. Text with characters outside the Basic Multilingual Plane is cut elsewhere: `truncate("😀", 1)` keeps the text in the model, but in JavaScript it gives half a surrogate pair plus `"..."`.
- Formatters.Truncate: `length` is an integer. A fractional or `NaN` JavaScript number is not modelled.
- Intl-based `formatPrice` and date-fns-based `formatDate` are not modelled, because they depend on locale libraries.
- `slugify`'s NFD normalisation and accent removal are not modelled. The model requires ASCII input, on which they change nothing.
- `emailSchema`, zod's internal e-mail pattern, is not modelled. The newsletter body arrives already checked, as fields or as the schema's issues.
- Validators.Validate takes the schema's outcome, not the raw data. It does not model non-string data given to `validate`.
- The newsletter token is encoded by a `serialise` parameter. It stands for base64 over the JSON text.
- `localeCompare` and Postgres name collation are an abstract order `le` on names. Ordering lemmas assume it is total and transitive.
- Categories.ListedAreMatchingAndOrdered: the database's order among equal keys is not modelled. The model's stable sort is one admissible order.
- Categories.NameContains treats `%` and `_` inside the search text as ordinary characters, not `ilike` wildcards. It folds case for ASCII only.
- In the tree printer, file-system calls are replaced by a directory value: `readdirSync`, `statSync` and their failures. The timestamp banner, the `main` entry point and the file write are left out.
- ProjectTree.GenerateTree returns the lines without their newlines. The text the script prints is these lines, each followed by `\n`.
- ProductsByIds.Product keeps only `id` and `is_active`. The joined images and category are not modelled.
- ProductsByIds.Selected keeps the table's order, where Postgres guarantees no order.
- NewsletterSubscribe.Subscribe models a failing send as an exception (500). A sender that reports failure without throwing is not modelled.
- The storefront image helpers never mutate `product.images`. This holds by construction, because the model's values are immutable.
- The webhook can regress a paid order to failed, and can decrement stock twice. Both are modelled as written and shown by `PaymentFailedOverwritesAndIsIdempotent` and `IntentFirstThenSessionDecrementsTwice`.
- The French messages of the newsletter endpoint use `é` and `à` where the source file's encoding lost those characters.
