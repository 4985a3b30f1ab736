/** `createOrderInDB` of `backend/src/orderService.js`: validate the payload before
    touching the database, store the order with a normalised payment status and
    one item row per item in one transaction, and only after the commit try to
    send a confirmation email whose failure is swallowed. The database's failure
    point and the mail server's answer are parameters. */
module OrderService {
  import opened Wrappers
  import opened OrderTables

  /** The argument object of `createOrderInDB`. */
  datatype OrderInput = OrderInput(
    totalAmount: Option<real>,
    currency: Option<string>,
    email: Option<string>,
    items: Option<seq<Item>>,
    paymentStatus: Option<string>)

  /** One line of the confirmation email. */
  datatype MailItem = MailItem(productName: string, quantity: int, price: real)

  /** The confirmation email `sendOrderConfirmation` is asked to send. */
  datatype Confirmation = Confirmation(email: string, orderId: nat, totalAmount: real,
                                       currency: Option<string>, items: seq<MailItem>)

  /** How a call ends. */
  datatype Outcome =
    | Invalid                                   // thrown before a connection is taken
    | RolledBack(at: Failure)                   // thrown after `rollback`
    | Created(orderId: nat, mail: Option<Confirmation>, mailFailed: bool)

  /** The payment status stored: `'pending'` and `'paid'` pass, anything else
      (including no status) becomes `'pending'`. */
  function SafeStatus(paymentStatus: Option<string>): (r: string)
    ensures r == "pending" || r == "paid"
    ensures r == "paid" <==> paymentStatus == Some("paid")
    ensures paymentStatus == Some("pending") ==> r == "pending"
  {
    if paymentStatus == Some("pending") || paymentStatus == Some("paid") then paymentStatus.value
    else "pending"
  }

  /** Normalising twice is normalising once. */
  lemma SafeStatusIdempotent(paymentStatus: Option<string>)
    ensures SafeStatus(Some(SafeStatus(paymentStatus))) == SafeStatus(paymentStatus)
  {
  }

  /** `item.productName || item.name || 'Product'`. */
  function DisplayName(item: Item): (r: string)
    ensures r != ""
    ensures Truthy(item.productName) ==> r == item.productName.value
    ensures !Truthy(item.productName) && Truthy(item.name) ==> r == item.name.value
    ensures !Truthy(item.productName) && !Truthy(item.name) ==> r == "Product"
  {
    if Truthy(item.productName) then item.productName.value
    else if Truthy(item.name) then item.name.value
    else "Product"
  }

  /** The lines of the confirmation email, one per item, in order. */
  function MailItems(items: seq<Item>): (r: seq<MailItem>)
    ensures |r| == |items|
    ensures forall i :: 0 <= i < |items| ==>
      r[i] == MailItem(DisplayName(items[i]), items[i].quantity, items[i].price)
  {
    seq(|items|, i requires 0 <= i < |items| => MailItem(DisplayName(items[i]), items[i].quantity, items[i].price))
  }

  /** Where the transaction of a valid input stops, if it does. */
  function StopsAt(input: OrderInput, failure: Failure): Failure
    requires ValidPayload(input.totalAmount, input.items)
  {
    FailurePoint(input.totalAmount.value, input.currency, OrNull(input.email), input.items.value, failure)
  }

  /** `createOrderInDB`: the outcome and the tables afterwards. */
  function CreateOrder(db: Db, input: OrderInput, failure: Failure, mailSucceeds: bool): (r: (Outcome, Db))
    ensures r.0.Invalid? <==> !ValidPayload(input.totalAmount, input.items)
    ensures r.0.Invalid? ==> r.1 == db
    ensures r.0.RolledBack? ==> r.1.orders == db.orders && r.1.orderItems == db.orderItems
    ensures r.0.RolledBack? <==> ValidPayload(input.totalAmount, input.items) && StopsAt(input, failure) != NoFailure
    ensures r.0.RolledBack? ==> r.0.at == StopsAt(input, failure)
    ensures r.0.RolledBack? ==> r.1.nextOrderId == if IdTaken(r.0.at) then db.nextOrderId + 1 else db.nextOrderId
    ensures r.0.Created? ==>
      && r.0.orderId == db.nextOrderId
      && r.1 == Transact(db, input.totalAmount.value, input.currency, OrNull(input.email),
                         SafeStatus(input.paymentStatus), input.items.value, NoFailure).1
    ensures r.0.Created? ==> (r.0.mail.Some? <==> Truthy(input.email))
    ensures r.0.Created? ==> (r.0.mailFailed <==> Truthy(input.email) && !mailSucceeds)
  {
    if !ValidPayload(input.totalAmount, input.items) then (Invalid, db)
    else
      var items := input.items.value;
      var (id, db') := Transact(db, input.totalAmount.value, input.currency, OrNull(input.email),
                                SafeStatus(input.paymentStatus), items, failure);
      if id.None? then (RolledBack(StopsAt(input, failure)), db')
      else
        var mail := if Truthy(input.email) then
          Some(Confirmation(input.email.value, id.value, input.totalAmount.value, input.currency, MailItems(items)))
        else None;
        (Created(id.value, mail, mail.Some? && !mailSucceeds), db')
  }

  /** An order commits exactly when the columns accept its values; it then
      stores the total in cents, the currency, `email || null` and the
      normalised status, and one item row per input item with the new id, in
      input order; nothing else is added to the order table. */
  lemma CreatedStoresOrder(db: Db, input: OrderInput, mailSucceeds: bool)
    requires Consistent(db)
    requires ValidPayload(input.totalAmount, input.items)
    ensures var (out, db') := CreateOrder(db, input, NoFailure, mailSucceeds);
      && (out.Created? <==>
            && OrderFits(input.totalAmount.value, input.currency, OrNull(input.email))
            && forall i :: 0 <= i < |input.items.value| ==> ItemFits(input.items.value[i]))
      && (out.Created? ==>
            && db'.orders == db.orders + [OrderRow(out.orderId, ToCents(input.totalAmount.value), input.currency.value,
                                                   OrNull(input.email), SafeStatus(input.paymentStatus))]
            && ItemsOf(db'.orderItems, out.orderId) == ItemRows(out.orderId, input.items.value))
      && Consistent(db')
  {
    CommittedItems(db, input.totalAmount.value, input.currency, OrNull(input.email),
                   SafeStatus(input.paymentStatus), input.items.value);
    TransactKeepsConsistent(db, input.totalAmount.value, input.currency, OrNull(input.email),
                            SafeStatus(input.paymentStatus), input.items.value, NoFailure);
  }

  /** `currency` is passed through without a default, so a call without one
      binds NULL, which the `NOT NULL` column refuses: the order insert fails,
      nothing is stored and no id is used. */
  lemma MissingCurrencyRollsBack(db: Db, input: OrderInput, failure: Failure, mailSucceeds: bool)
    requires ValidPayload(input.totalAmount, input.items)
    requires input.currency.None?
    ensures CreateOrder(db, input, failure, mailSucceeds) == (RolledBack(AtOrderInsert), db)
  {
  }

  /** The email is sent after the commit, so whether it goes out changes neither
      the returned id nor the stored tables. */
  lemma MailFailureSwallowed(db: Db, input: OrderInput, failure: Failure)
    ensures var (a, dbA) := CreateOrder(db, input, failure, true);
            var (b, dbB) := CreateOrder(db, input, failure, false);
      && dbA == dbB
      && a.Created? == b.Created?
      && (a.Created? ==> a.orderId == b.orderId && a.mail == b.mail)
  {
  }

  /** An order the columns accept is created, and its confirmation lists every
      item under its display name. */
  lemma MailListsItems(db: Db, input: OrderInput, mailSucceeds: bool)
    requires ValidPayload(input.totalAmount, input.items) && Truthy(input.email)
    ensures var out := CreateOrder(db, input, NoFailure, mailSucceeds).0;
      && (out.Created? <==> StopsAt(input, NoFailure) == NoFailure)
      && (out.Created? ==>
            && out.mail.Some?
            && out.mail.value.email == input.email.value
            && out.mail.value.orderId == out.orderId
            && |out.mail.value.items| == |input.items.value|
            && (forall i :: 0 <= i < |input.items.value| ==> out.mail.value.items[i].productName == DisplayName(input.items.value[i])))
  {
  }
}
