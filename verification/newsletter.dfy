/** The newsletter sign-up endpoint: how a request's body and the existing
    `newsletter_subscribers` row decide the response, the write and the
    confirmation e-mail, and how the confirmation link is built. */
module NewsletterSubscribe {
  import opened Base

  datatype SubscriberStatus = Pending | Active | Unsubscribed | OtherStatus(name: string)

  /** A `newsletter_subscribers` row; timestamps are milliseconds since the epoch. */
  datatype Subscriber = Subscriber(
    id: string,
    email: string,
    firstName: Option<string>,
    lastName: Option<string>,
    status: SubscriberStatus,
    unsubscribedAt: Option<nat>,
    consentIp: Option<string>,
    consentSource: Option<string>)

  /** What reading and checking the JSON body gave: unreadable JSON, the
      schema's issues (there is always a first one), or the fields. */
  datatype Body =
    | MalformedJson
    | SchemaIssues(first: string, rest: seq<string>)
    | Fields(email: string, firstName: Option<string>, lastName: Option<string>)

  /** One request, with the answers of the services it calls. */
  datatype Request = Request(
    body: Body,
    forwardedFor: Option<string>,  // the `x-forwarded-for` header
    baseUrl: Option<string>,       // NEXT_PUBLIC_BASE_URL
    now: nat,                      // Date.now()
    newId: string,                 // id the database gives an inserted row
    lookupFails: bool,
    insertFails: bool,
    updateFails: bool,
    sendFails: bool)

  /** The signed-up address and expiry carried, serialised, in the link. */
  datatype Token = Token(email: string, exp: nat)

  /** A confirmation e-mail handed to the sender. */
  datatype Mail = Mail(to: string, firstName: Option<string>, confirmUrl: string)

  datatype Response =
    | Sent(message: string)        // 200, success: true
    | BadRequest(error: string)    // 400
    | Conflict(error: string)      // 409
    | ServerError(error: string)   // 500

  const AlreadySubscribed := "Cet email est d\U{00E9}j\U{00E0} inscrit"
  const SubscribeFailed := "Erreur lors de l'inscription"
  const DefaultBaseUrl := "https://www.blancherenaudin.com"
  const ConfirmPath := "/api/newsletter/confirm?token="
  const ConsentSource := "website_footer"
  const DayMs := 24 * 60 * 60 * 1000

  function SentMessage(email: string): string {
    "Email de confirmation envoy\U{00E9} \U{00E0} " + email
  }

  /** What `.eq('email', e).single()` yields: the row when exactly one has
      that address, otherwise nothing (a failed query also yields nothing). */
  function Lookup(table: seq<Subscriber>, email: string, fails: bool): (r: Option<Subscriber>)
    ensures r.Some? <==> !fails && |Matching(table, email)| == 1
    ensures r.Some? ==> r.value == Matching(table, email)[0] && r.value in table && r.value.email == email
  {
    var m := Matching(table, email);
    if fails || |m| != 1 then None else Some(m[0])
  }

  /** The rows with address `email`, in table order. */
  function Matching(table: seq<Subscriber>, email: string): (r: seq<Subscriber>)
    ensures forall x :: x in r ==> x in table && x.email == email
    ensures forall x :: x in table && x.email == email ==> x in r
    decreases |table|
  {
    if |table| == 0 then []
    else (if table[0].email == email then [table[0]] else []) + Matching(table[1..], email)
  }

  /** `.update({status: 'pending', unsubscribed_at: null}).eq('id', id)`. */
  function Reactivate(table: seq<Subscriber>, id: string): (r: seq<Subscriber>)
    ensures |r| == |table|
    ensures forall i :: 0 <= i < |table| ==>
              r[i] == if table[i].id == id then table[i].(status := Pending, unsubscribedAt := None) else table[i]
  {
    seq(|table|, i requires 0 <= i < |table| =>
      if table[i].id == id then table[i].(status := Pending, unsubscribedAt := None) else table[i])
  }

  /** The row inserted for a new address. */
  function NewSubscriber(req: Request, email: string, firstName: Option<string>, lastName: Option<string>): Subscriber {
    Subscriber(req.newId, email, firstName, lastName, Pending, None, OrNull(req.forwardedFor), Some(ConsentSource))
  }

  /** The link of the confirmation e-mail; `serialise` stands for the base64
      of the token's JSON text. */
  function ConfirmUrl(req: Request, email: string, serialise: Token -> string): (url: string)
    ensures url == (if Truthy(req.baseUrl) then req.baseUrl.value else DefaultBaseUrl)
                   + ConfirmPath + serialise(Token(email, req.now + 86400000))
  {
    var base := if Truthy(req.baseUrl) then req.baseUrl.value else DefaultBaseUrl;
    base + ConfirmPath + serialise(Token(email, req.now + DayMs))
  }

  /** The outcome of one request: the table afterwards, the response, and the
      e-mail handed to the sender, if the handler got that far. */
  datatype Outcome = Outcome(table: seq<Subscriber>, response: Response, mail: Option<Mail>)

  /** The e-mail step shared by every path that reaches it. */
  function Confirm(table: seq<Subscriber>, req: Request, email: string, firstName: Option<string>,
                   serialise: Token -> string): Outcome {
    var mail := Mail(email, firstName, ConfirmUrl(req, email, serialise));
    if req.sendFails then Outcome(table, ServerError(SubscribeFailed), Some(mail))
    else Outcome(table, Sent(SentMessage(email)), Some(mail))
  }

  /** `POST /api/newsletter/subscribe`. */
  function Subscribe(table: seq<Subscriber>, req: Request, serialise: Token -> string): (out: Outcome)
    ensures req.body.MalformedJson? ==> out == Outcome(table, ServerError(SubscribeFailed), None)
    ensures req.body.SchemaIssues? ==> out == Outcome(table, BadRequest(req.body.first), None)
    ensures out.response.Sent? <==> req.body.Fields? && out.mail.Some? && !req.sendFails
    ensures out.mail.Some? ==> req.body.Fields? && out.mail.value.to == req.body.email
  {
    match req.body
    case MalformedJson => Outcome(table, ServerError(SubscribeFailed), None)
    case SchemaIssues(first, _) => Outcome(table, BadRequest(first), None)
    case Fields(email, firstName, lastName) =>
      match Lookup(table, email, req.lookupFails)
      case Some(existing) =>
        if existing.status == Active then Outcome(table, Conflict(AlreadySubscribed), None)
        else if existing.status == Unsubscribed then
          var table' := if req.updateFails then table else Reactivate(table, existing.id);
          Confirm(table', req, email, firstName, serialise)
        else Confirm(table, req, email, firstName, serialise)
      case None =>
        if req.insertFails then Outcome(table, ServerError(SubscribeFailed), None)
        else Confirm(table + [NewSubscriber(req, email, firstName, lastName)], req, email, firstName, serialise)
  }

  predicate FoundWith(table: seq<Subscriber>, req: Request, status: SubscriberStatus) {
    req.body.Fields? && Lookup(table, req.body.email, req.lookupFails).Some?
    && Lookup(table, req.body.email, req.lookupFails).value.status == status
  }

  /** An active subscriber is refused with 409; nothing is written or sent. */
  lemma ActiveIsRefused(table: seq<Subscriber>, req: Request, serialise: Token -> string)
    requires FoundWith(table, req, Active)
    ensures Subscribe(table, req, serialise) == Outcome(table, Conflict(AlreadySubscribed), None)
  {
  }

  /** An unsubscribed subscriber's row, and only that row, goes back to
      pending with the unsubscription date cleared; the e-mail is sent. */
  lemma UnsubscribedIsReactivated(table: seq<Subscriber>, req: Request, serialise: Token -> string)
    requires FoundWith(table, req, Unsubscribed) && !req.updateFails
    ensures var out := Subscribe(table, req, serialise);
            var row := Lookup(table, req.body.email, req.lookupFails).value;
            && |out.table| == |table|
            && (forall i :: 0 <= i < |table| && table[i].id == row.id ==>
                  out.table[i].status == Pending && out.table[i].unsubscribedAt.None?
                  && out.table[i].email == table[i].email)
            && (forall i :: 0 <= i < |table| && table[i].id != row.id ==> out.table[i] == table[i])
            && out.mail.Some?
  {
  }

  /** Any other existing subscriber (pending, say) is left as it is, and the
      confirmation is sent again. */
  lemma OtherStatusResends(table: seq<Subscriber>, req: Request, serialise: Token -> string)
    requires req.body.Fields? && Lookup(table, req.body.email, req.lookupFails).Some?
    requires var s := Lookup(table, req.body.email, req.lookupFails).value.status; s != Active && s != Unsubscribed
    ensures var out := Subscribe(table, req, serialise);
            out.table == table && out.mail.Some? && out.mail.value.to == req.body.email
  {
  }

  /** A new address is appended as a pending row from the website footer,
      with the forwarded address as consent IP; a failed insert is a 500
      with nothing written or sent. */
  lemma NewAddressIsInserted(table: seq<Subscriber>, req: Request, serialise: Token -> string)
    requires req.body.Fields? && Lookup(table, req.body.email, req.lookupFails).None?
    ensures var out := Subscribe(table, req, serialise);
            && (req.insertFails ==> out == Outcome(table, ServerError(SubscribeFailed), None))
            && (!req.insertFails ==>
                  && out.table == table + [out.table[|table|]]
                  && |out.table| == |table| + 1
                  && out.table[|table|].email == req.body.email
                  && out.table[|table|].status == Pending
                  && out.table[|table|].consentSource == Some("website_footer")
                  && out.table[|table|].consentIp == OrNull(req.forwardedFor)
                  && out.mail.Some?)
  {
    if !req.insertFails {
      var out := Subscribe(table, req, serialise);
      assert out.table == table + [NewSubscriber(req, req.body.email, req.body.firstName, req.body.lastName)];
    }
  }

  /** The link carries a token that expires a day after the request. */
  lemma LinkExpiresInADay(table: seq<Subscriber>, req: Request, serialise: Token -> string)
    requires Subscribe(table, req, serialise).mail.Some?
    ensures Subscribe(table, req, serialise).mail.value.confirmUrl
         == (if Truthy(req.baseUrl) then req.baseUrl.value else "https://www.blancherenaudin.com")
            + "/api/newsletter/confirm?token=" + serialise(Token(req.body.email, req.now + 86400000))
  {
  }

  /** A failed send answers 500, but the row written before it stays. */
  lemma SendFailureKeepsWrite(table: seq<Subscriber>, req: Request, serialise: Token -> string)
    requires req.body.Fields? && Lookup(table, req.body.email, req.lookupFails).None?
    requires !req.insertFails && req.sendFails
    ensures var out := Subscribe(table, req, serialise);
            out.response == ServerError(SubscribeFailed) && |out.table| == |table| + 1
  {
  }

  /** Signing up a new address twice writes one row: the second request finds
      the pending row, writes nothing, and sends the confirmation again. */
  lemma {:induction false} SecondSignUpWritesNothing(table: seq<Subscriber>, req1: Request, req2: Request,
                                                     serialise: Token -> string)
    requires req1.body.Fields? && req2.body.Fields? && req1.body.email == req2.body.email
    requires |Matching(table, req1.body.email)| == 0
    requires !req1.lookupFails && !req1.insertFails && !req2.lookupFails
    ensures var t1 := Subscribe(table, req1, serialise).table;
            var out := Subscribe(t1, req2, serialise);
            && |t1| == |table| + 1
            && out.table == t1
            && out.mail.Some?
  {
    var email := req1.body.email;
    assert Lookup(table, email, req1.lookupFails).None?;
    NewAddressIsInserted(table, req1, serialise);
    var t1 := Subscribe(table, req1, serialise).table;
    var row := t1[|table|];
    MatchingAppend(table, row, email);
    assert Matching(t1, email) == [row];
    assert Lookup(t1, email, req2.lookupFails) == Some(row);
    OtherStatusResends(t1, req2, serialise);
  }

  lemma {:induction false} MatchingAppend(table: seq<Subscriber>, row: Subscriber, email: string)
    ensures Matching(table + [row], email) == Matching(table, email) + (if row.email == email then [row] else [])
    decreases |table|
  {
    if |table| == 0 {
      assert table + [row] == [row];
      assert [row][1..] == [];
    } else {
      assert (table + [row])[1..] == table[1..] + [row];
      MatchingAppend(table[1..], row, email);
    }
  }
}
