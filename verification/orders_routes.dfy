/** `POST /api/orders` of `backend/src/ordersRoutes.js`. The handler validates the
    payload, then stores the order as `'paid'` with one item row per item in one
    transaction, answering 201 with the new id or, after a rollback, 500.

    As written, line 3 binds the whole `db` module (`{ pool, ensureSchema }`) to
    `pool`, so `pool.getConnection` is undefined and the call on line 14 throws
    before the `try`: the handler's own responses are never sent for a valid
    payload and nothing is written. `PostAsWritten` models that; `Post` models
    the handler with `pool` bound to the connection pool. */
module OrdersRoutes {
  import opened Wrappers
  import opened OrderTables
  import Http

  /** The request body. */
  datatype OrderBody = OrderBody(totalAmount: Option<real>, currency: Field<string>,
                                 email: Option<string>, items: Option<seq<Item>>)

  /** What the client gets: a JSON reply, or nothing from this handler at all. */
  datatype Reply =
    | Json(status: int, id: Option<nat>, message: Option<string>)
    | NoReply

  const InvalidPayload := "Invalid order payload"
  const CreateFailed := "Failed to create order"

  /** The currency bound for the insert: `'kes'` when the field is absent, and
      NULL when it is `null`, which the `NOT NULL` column then refuses. */
  function BoundCurrency(c: Field<string>): (r: Option<string>)
    ensures c.Absent? ==> r == Some("kes")
    ensures r.None? <==> c.Null?
    ensures c.Present? ==> r == Some(c.value)
  {
    WithDefault(c, "kes")
  }

  /** Where the transaction of a valid body stops, if it does. */
  function StopsAt(body: OrderBody, failure: Failure): Failure
    requires ValidPayload(body.totalAmount, body.items)
  {
    FailurePoint(body.totalAmount.value, BoundCurrency(body.currency), OrNull(body.email), body.items.value, failure)
  }

  /** The handler with a working connection pool: 400 for an invalid payload,
      otherwise the transaction; 201 with the id on commit, 500 after rollback. */
  function Post(db: Db, body: OrderBody, failure: Failure): (r: (Reply, Db))
    ensures !ValidPayload(body.totalAmount, body.items) ==> r == (Json(Http.BadRequest, None, Some(InvalidPayload)), db)
    ensures ValidPayload(body.totalAmount, body.items) && StopsAt(body, failure) != NoFailure ==>
      && r.0 == Json(Http.ServerError, None, Some(CreateFailed))
      && r.1.orders == db.orders && r.1.orderItems == db.orderItems
      && r.1.nextOrderId == if IdTaken(StopsAt(body, failure)) then db.nextOrderId + 1 else db.nextOrderId
    ensures ValidPayload(body.totalAmount, body.items) && StopsAt(body, failure) == NoFailure ==>
      && r.0 == Json(Http.Created, Some(db.nextOrderId), None)
      && r.1.orders == db.orders + [OrderRow(db.nextOrderId, ToCents(body.totalAmount.value),
                                             BoundCurrency(body.currency).value, OrNull(body.email), "paid")]
      && r.1.orderItems == db.orderItems + ItemRows(db.nextOrderId, body.items.value)
  {
    if !ValidPayload(body.totalAmount, body.items) then (Json(Http.BadRequest, None, Some(InvalidPayload)), db)
    else
      var (id, db') := Transact(db, body.totalAmount.value, BoundCurrency(body.currency), OrNull(body.email),
                                "paid", body.items.value, failure);
      match id
      case Some(orderId) => (Json(Http.Created, Some(orderId), None), db')
      case None => (Json(Http.ServerError, None, Some(CreateFailed)), db')
  }

  /** A `currency: null` body is answered 500 and leaves the tables, id counter
      included, as they were. */
  lemma NullCurrencyFails(db: Db, body: OrderBody, failure: Failure)
    requires ValidPayload(body.totalAmount, body.items)
    requires body.currency.Null?
    ensures Post(db, body, failure) == (Json(Http.ServerError, None, Some(CreateFailed)), db)
  {
  }

  /** The handler as written: past validation it throws a `TypeError` outside its
      `try`, before any connection, transaction or response. */
  function PostAsWritten(db: Db, body: OrderBody): (r: (Reply, Db))
    ensures r.1 == db
    ensures !ValidPayload(body.totalAmount, body.items) <==> r.0 == Json(Http.BadRequest, None, Some(InvalidPayload))
    ensures ValidPayload(body.totalAmount, body.items) ==> r.0 == NoReply
  {
    if !ValidPayload(body.totalAmount, body.items) then (Json(Http.BadRequest, None, Some(InvalidPayload)), db)
    else (NoReply, db)
  }

  /** As written, no payload ever creates an order: a valid one gets no reply and
      leaves both tables as they were, where the intended handler answers 201
      and stores the order. */
  lemma AsWrittenNeverCreates(db: Db, body: OrderBody)
    requires ValidPayload(body.totalAmount, body.items)
    ensures PostAsWritten(db, body) == (NoReply, db)
    ensures StopsAt(body, NoFailure) == NoFailure ==>
      && Post(db, body, NoFailure).0 == Json(Http.Created, Some(db.nextOrderId), None)
      && |Post(db, body, NoFailure).1.orders| == |db.orders| + 1
  {
  }

  /** Every order the handler stores is `'paid'`, and the new order owns one item
      row per item, in order; a rollback leaves no order and no item row behind. */
  lemma PostStoresPaidOrder(db: Db, body: OrderBody, failure: Failure)
    requires Consistent(db)
    ensures var (reply, db') := Post(db, body, failure);
      && Consistent(db')
      && (reply.status == Http.Created <==>
            ValidPayload(body.totalAmount, body.items) && StopsAt(body, failure) == NoFailure)
      && (reply.status == Http.Created ==>
            && db'.orders[|db'.orders| - 1].paymentStatus == "paid"
            && ItemsOf(db'.orderItems, reply.id.value) == ItemRows(reply.id.value, body.items.value))
      && (reply.status != Http.Created ==> db'.orders == db.orders && db'.orderItems == db.orderItems)
  {
    if ValidPayload(body.totalAmount, body.items) {
      TransactKeepsConsistent(db, body.totalAmount.value, BoundCurrency(body.currency), OrNull(body.email),
                              "paid", body.items.value, failure);
      if failure == NoFailure {
        CommittedItems(db, body.totalAmount.value, BoundCurrency(body.currency), OrNull(body.email),
                       "paid", body.items.value);
      }
    }
  }
}
