/** The `orders` and `order_items` tables both order writers use, and the
    transaction they run: insert the order, insert one item row per input item,
    commit. A failure at any step before the commit completes rolls back, so
    either both inserts persist or neither does.

    The columns are those `ensureSchema` creates in `backend/src/db.js`, under
    MySQL's default strict SQL mode: `total_amount` and `price_at_purchase` are
    `DECIMAL(10,2)`, rounded to cents on the way in and refused out of range;
    `currency` is `VARCHAR(10) NOT NULL`; `customer_email` is `VARCHAR(255)`;
    `quantity` is `INT UNSIGNED`. A value a column refuses fails its insert. */
module OrderTables {
  import opened Wrappers

  /** One `orders` row; `None` stands for SQL NULL, which only `customer_email`
      admits. */
  datatype OrderRow = OrderRow(
    id: nat,
    totalAmount: real,
    currency: string,
    customerEmail: Option<string>,
    paymentStatus: string)

  /** One `order_items` row. */
  datatype ItemRow = ItemRow(orderId: nat, productId: string, quantity: int, priceAtPurchase: real)

  /** Both tables and the next `orders` auto-increment id. */
  datatype Db = Db(orders: seq<OrderRow>, orderItems: seq<ItemRow>, nextOrderId: nat)

  /** An item of an order request. */
  datatype Item = Item(productId: string, quantity: int, price: real, productName: Option<string>, name: Option<string>)

  /** The payload check both order writers make first: `items` is a non-empty
      array (`None` stands for a value that is not an array) and `totalAmount`
      is neither `null` nor `undefined`. */
  predicate ValidPayload(totalAmount: Option<real>, items: Option<seq<Item>>) {
    items.Some? && |items.value| > 0 && totalAmount.Some?
  }

  /** Where the database gives up, if it does. A failure at the order insert
      takes no id; once the order insert has run, InnoDB has handed out its
      auto-increment id, and a rollback does not give it back. */
  datatype Failure = NoFailure | AtOrderInsert | AtItemsInsert | AtCommit

  /** The order insert ran before the failure, so its id is used up. */
  predicate IdTaken(failure: Failure) {
    failure == AtItemsInsert || failure == AtCommit
  }

  /** The position of a failure in the transaction; no failure comes last. */
  function Step(failure: Failure): nat {
    match failure
    case AtOrderInsert => 0
    case AtItemsInsert => 1
    case AtCommit => 2
    case NoFailure => 3
  }

  /** Whichever of two failures the transaction reaches first. */
  function Earliest(a: Failure, b: Failure): (r: Failure)
    ensures r == a || r == b
    ensures Step(r) <= Step(a) && Step(r) <= Step(b)
  {
    if Step(a) <= Step(b) then a else b
  }

  /** `x` rounded to the nearest integer, halves away from zero. */
  function RoundHalfAway(x: real): (r: int)
    ensures x - 0.5 <= r as real <= x + 0.5
    ensures x >= 0.0 ==> r as real > x - 0.5
    ensures x < 0.0 ==> r as real < x + 0.5
  {
    if x >= 0.0 then (x + 0.5).Floor else -((-x + 0.5).Floor)
  }

  /** A whole number of cents. */
  predicate IsCents(x: real) {
    (x * 100.0).Floor as real == x * 100.0
  }

  /** The value a `DECIMAL(10,2)` column stores for `x`: rounded to two decimals,
      halves away from zero. */
  function ToCents(x: real): (r: real)
    ensures IsCents(r)
    ensures x - 0.005 <= r <= x + 0.005
  {
    RoundHalfAway(x * 100.0) as real / 100.0
  }

  /** A value that is already a whole number of cents is stored unchanged, so
      storing is idempotent. */
  lemma CentsKeepsCents(x: real)
    requires IsCents(x)
    ensures ToCents(x) == x
    ensures ToCents(ToCents(x)) == ToCents(x)
  {
    var k := (x * 100.0).Floor;
    assert RoundHalfAway(x * 100.0) == k;
  }

  /** Half a cent rounds away from zero on both sides. */
  lemma HalfCentRoundsAway()
    ensures ToCents(0.005) == 0.01 && ToCents(-0.005) == -0.01
    ensures ToCents(0.004) == 0.0 && ToCents(1.235) == 1.24
  {
    assert RoundHalfAway(0.5) == 1;
    assert RoundHalfAway(-0.5) == -1;
    assert RoundHalfAway(0.4) == 0;
    assert RoundHalfAway(123.5) == 124;
  }

  /** The largest magnitude `DECIMAL(10,2)` holds. */
  const DecimalMax: real := 99999999.99

  /** The largest `INT UNSIGNED`. */
  const UnsignedMax: int := 4294967295

  /** A `DECIMAL(10,2)` column accepts `x`: its rounded value is in range. */
  predicate FitsDecimal(x: real) {
    -DecimalMax <= ToCents(x) <= DecimalMax
  }

  /** The `orders` columns accept the values: a total in range, a currency that
      is neither NULL nor longer than ten characters, and an email of at most
      255 characters or NULL. */
  predicate OrderFits(totalAmount: real, currency: Option<string>, email: Option<string>) {
    && FitsDecimal(totalAmount)
    && currency.Some? && |currency.value| <= 10
    && (email.Some? ==> |email.value| <= 255)
  }

  /** The `order_items` columns accept an item: an unsigned quantity and a price
      in range. */
  predicate ItemFits(item: Item) {
    0 <= item.quantity <= UnsignedMax && FitsDecimal(item.price)
  }

  /** The step at which the columns refuse the values, if any: the order insert
      before the items insert. */
  function SchemaFailure(totalAmount: real, currency: Option<string>, email: Option<string>,
                         items: seq<Item>): (r: Failure)
    ensures r != AtCommit
    ensures r == AtOrderInsert <==> !OrderFits(totalAmount, currency, email)
    ensures r == AtItemsInsert <==>
      OrderFits(totalAmount, currency, email) && exists i :: 0 <= i < |items| && !ItemFits(items[i])
    ensures r == NoFailure <==>
      OrderFits(totalAmount, currency, email) && forall i :: 0 <= i < |items| ==> ItemFits(items[i])
  {
    if !OrderFits(totalAmount, currency, email) then AtOrderInsert
    else if exists i :: 0 <= i < |items| && !ItemFits(items[i]) then AtItemsInsert
    else NoFailure
  }

  /** Where the transaction actually stops: the first of the columns' refusal
      and `failure`, which stands for everything else the database may refuse
      (a lost connection, the `product_id` foreign key, a deadlock). */
  function FailurePoint(totalAmount: real, currency: Option<string>, email: Option<string>,
                        items: seq<Item>, failure: Failure): Failure {
    Earliest(SchemaFailure(totalAmount, currency, email, items), failure)
  }

  /** `items.map(item => [orderId, item.productId, item.quantity, item.price])`,
      as the rows store it: the price rounded to cents. */
  function ItemRows(orderId: nat, items: seq<Item>): (r: seq<ItemRow>)
    ensures |r| == |items|
    ensures forall i :: 0 <= i < |items| ==>
      r[i] == ItemRow(orderId, items[i].productId, items[i].quantity, ToCents(items[i].price))
  {
    seq(|items|, i requires 0 <= i < |items| =>
      ItemRow(orderId, items[i].productId, items[i].quantity, ToCents(items[i].price)))
  }

  /** `beginTransaction`, the two inserts and `commit`, or `rollback` at the
      failure point: the new order id on success, and the tables afterwards. */
  function Transact(db: Db, totalAmount: real, currency: Option<string>, email: Option<string>, status: string,
                    items: seq<Item>, failure: Failure): (r: (Option<nat>, Db))
    ensures var f := FailurePoint(totalAmount, currency, email, items, failure);
      && (f != NoFailure ==> r.0.None? && r.1.orders == db.orders && r.1.orderItems == db.orderItems)
      && (f == AtOrderInsert ==> r.1.nextOrderId == db.nextOrderId)
      && (IdTaken(f) ==> r.1.nextOrderId == db.nextOrderId + 1)
    ensures r.0.Some? <==> failure == NoFailure && SchemaFailure(totalAmount, currency, email, items) == NoFailure
    ensures r.0.Some? ==>
      && r.0 == Some(db.nextOrderId)
      && r.1.orders == db.orders + [OrderRow(db.nextOrderId, ToCents(totalAmount), currency.value, email, status)]
      && r.1.orderItems == db.orderItems + ItemRows(db.nextOrderId, items)
      && r.1.nextOrderId == db.nextOrderId + 1
      && (forall i :: 0 <= i < |items| ==> 0 <= items[i].quantity <= UnsignedMax)
  {
    var f := FailurePoint(totalAmount, currency, email, items, failure);
    if f == AtOrderInsert then (None, db)
    else if f != NoFailure then (None, db.(nextOrderId := db.nextOrderId + 1))
    else
      var id := db.nextOrderId;
      var order := OrderRow(id, ToCents(totalAmount), currency.value, email, status);
      (Some(id), Db(db.orders + [order], db.orderItems + ItemRows(id, items), id + 1))
  }

  /** A NULL currency never reaches the table: the order insert is refused
      whatever else happens, no row is added and no id is used. */
  lemma NullCurrencyRefused(db: Db, totalAmount: real, email: Option<string>, status: string,
                            items: seq<Item>, failure: Failure)
    ensures var r := Transact(db, totalAmount, None, email, status, items, failure);
      r.0.None? && r.1 == db
  {
  }

  /** A negative quantity is refused at the items insert: the order insert has
      already used its id, and the rollback removes the order again. */
  lemma NegativeQuantityRefused(db: Db, totalAmount: real, currency: string, email: Option<string>,
                                status: string, items: seq<Item>, k: int)
    requires OrderFits(totalAmount, Some(currency), email)
    requires 0 <= k < |items| && items[k].quantity < 0
    ensures var r := Transact(db, totalAmount, Some(currency), email, status, items, NoFailure);
      && r.0.None?
      && r.1 == db.(nextOrderId := db.nextOrderId + 1)
  {
    assert !ItemFits(items[k]);
  }

  /** Every item row belongs to an order in the table, and order ids ascend below
      the next id. */
  ghost predicate Consistent(db: Db) {
    && (forall i, j :: 0 <= i < j < |db.orders| ==> db.orders[i].id < db.orders[j].id)
    && (forall i :: 0 <= i < |db.orders| ==> db.orders[i].id < db.nextOrderId)
    && (forall k :: 0 <= k < |db.orderItems| ==> HasOrder(db.orders, db.orderItems[k].orderId))
  }

  /** Some order in `orders` has id `id`. */
  ghost predicate HasOrder(orders: seq<OrderRow>, id: nat) {
    exists i :: 0 <= i < |orders| && orders[i].id == id
  }

  /** A transaction, committed or rolled back, never leaves an item row without
      its order, and keeps every order id below the next one handed out. */
  lemma TransactKeepsConsistent(db: Db, totalAmount: real, currency: Option<string>, email: Option<string>,
                                status: string, items: seq<Item>, failure: Failure)
    requires Consistent(db)
    ensures Consistent(Transact(db, totalAmount, currency, email, status, items, failure).1)
  {
    var f := FailurePoint(totalAmount, currency, email, items, failure);
    if IdTaken(f) {
      var db' := Transact(db, totalAmount, currency, email, status, items, failure).1;
      assert db'.orders == db.orders && db'.orderItems == db.orderItems;
      assert db'.nextOrderId == db.nextOrderId + 1;
    } else if f == NoFailure {
      var db' := Transact(db, totalAmount, currency, email, status, items, failure).1;
      var n := |db.orders|;
      assert db'.orders[n].id == db.nextOrderId;
      forall k | 0 <= k < |db'.orderItems|
        ensures HasOrder(db'.orders, db'.orderItems[k].orderId)
      {
        if k < |db.orderItems| {
          assert db'.orderItems[k] == db.orderItems[k];
          assert HasOrder(db.orders, db.orderItems[k].orderId);
          var i :| 0 <= i < |db.orders| && db.orders[i].id == db.orderItems[k].orderId;
          assert db'.orders[i] == db.orders[i];
        } else {
          assert db'.orderItems[k] == ItemRows(db.nextOrderId, items)[k - |db.orderItems|];
          assert db'.orders[n].id == db'.orderItems[k].orderId;
        }
      }
    }
  }

  /** The items of order `id`, in table order. */
  function ItemsOf(rows: seq<ItemRow>, id: nat): (r: seq<ItemRow>)
    ensures forall i :: 0 <= i < |r| ==> r[i].orderId == id
  {
    if rows == [] then []
    else if rows[0].orderId == id then [rows[0]] + ItemsOf(rows[1..], id)
    else ItemsOf(rows[1..], id)
  }

  lemma {:induction false} ItemsOfAppend(a: seq<ItemRow>, b: seq<ItemRow>, id: nat)
    ensures ItemsOf(a + b, id) == ItemsOf(a, id) + ItemsOf(b, id)
    decreases |a|
  {
    if a == [] {
      assert a + b == b;
    } else {
      assert (a + b)[1..] == a[1..] + b;
      ItemsOfAppend(a[1..], b, id);
    }
  }

  lemma {:induction false} ItemsOfFresh(rows: seq<ItemRow>, id: nat)
    requires forall k :: 0 <= k < |rows| ==> rows[k].orderId != id
    ensures ItemsOf(rows, id) == []
    decreases |rows|
  {
    if rows != [] {
      ItemsOfFresh(rows[1..], id);
    }
  }

  lemma {:induction false} ItemsOfOwn(rows: seq<ItemRow>, id: nat)
    requires forall k :: 0 <= k < |rows| ==> rows[k].orderId == id
    ensures ItemsOf(rows, id) == rows
    decreases |rows|
  {
    if rows != [] {
      ItemsOfOwn(rows[1..], id);
    }
  }

  /** After a committed transaction, the new order owns exactly one item row per
      input item, in input order. */
  lemma CommittedItems(db: Db, totalAmount: real, currency: Option<string>, email: Option<string>,
                       status: string, items: seq<Item>)
    requires Consistent(db)
    ensures var (id, db') := Transact(db, totalAmount, currency, email, status, items, NoFailure);
      id.Some? ==> ItemsOf(db'.orderItems, id.value) == ItemRows(id.value, items)
  {
    var id := db.nextOrderId;
    forall k | 0 <= k < |db.orderItems|
      ensures db.orderItems[k].orderId != id
    {
      assert HasOrder(db.orders, db.orderItems[k].orderId);
      var i :| 0 <= i < |db.orders| && db.orders[i].id == db.orderItems[k].orderId;
    }
    ItemsOfAppend(db.orderItems, ItemRows(id, items), id);
    ItemsOfFresh(db.orderItems, id);
    ItemsOfOwn(ItemRows(id, items), id);
  }
}
