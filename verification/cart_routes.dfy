/** The server cart of `backend/src/cartRoutes.js`: the `cart_items` table as a
    sequence of rows in insertion (auto-increment) order, and each route as a
    function from the table and the request to the new table and the response.
    Every route sits behind `authenticateToken`. */
module CartRoutes {
  import opened Wrappers
  import opened AuthMiddleware
  import Http
  import Rows

  /** One `cart_items` row; `quantity` and `size` are `None` for SQL NULL (a POST
      with `quantity: null` inserts a NULL quantity). */
  datatype Row = Row(id: nat, userId: nat, productId: string, quantity: Option<int>, size: Option<string>)

  /** The table and its next auto-increment id. */
  datatype Table = Table(rows: seq<Row>, nextId: nat)

  /** Two rows for the same user, product and size (NULL included). */
  predicate SameLine(x: Row, y: Row) {
    x.userId == y.userId && x.productId == y.productId && x.size == y.size
  }

  /** `x` was inserted before `y` and is a different line. */
  predicate Before(x: Row, y: Row) {
    x.id < y.id && !SameLine(x, y)
  }

  /** Rows in insertion order, each line at most once. */
  ghost predicate Ordered(rows: seq<Row>) {
    forall i, j :: 0 <= i < j < |rows| ==> Before(rows[i], rows[j])
  }

  /** The table invariant: rows ordered by id, no line twice, every id below the next
      one to hand out. */
  ghost predicate Valid(t: Table) {
    Ordered(t.rows) && forall i :: 0 <= i < |t.rows| ==> t.rows[i].id < t.nextId
  }

  /** Row ids ascend in table order. */
  ghost predicate Ascending(rows: seq<Row>) {
    forall i, j :: 0 <= i < j < |rows| ==> IdBefore(rows[i], rows[j])
  }

  /** `x` has a smaller id than `y`. */
  predicate IdBefore(x: Row, y: Row) {
    x.id < y.id
  }

  /** The part of the invariant the router as written keeps: ids ascend and stay
      below the next one to hand out. */
  ghost predicate Numbered(t: Table) {
    Ascending(t.rows) && forall i :: 0 <= i < |t.rows| ==> t.rows[i].id < t.nextId
  }

  /** No two rows are the same line. */
  ghost predicate NoDuplicateLines(rows: seq<Row>) {
    forall i, j :: 0 <= i < j < |rows| ==> !SameLine(rows[i], rows[j])
  }

  /** The `products` table as the cart routes read it: product id to `in_stock`. */
  type Stock = map<string, bool>

  /** The JSON body of `POST /`. `quantity` distinguishes an absent field (the
      default 1 applies) from `null` (kept); for the other fields a missing or
      `null` value is `None`. */
  datatype AddBody = AddBody(productId: Option<string>, quantity: Field<int>, size: Option<string>)

  /** The routes of the cart router. */
  datatype CartRequest =
    | GetCart
    | AddToCart(body: AddBody, writeFails: bool)
    | UpdateItem(cartItemId: nat, quantity: Option<int>)
    | RemoveItem(cartItemId: nat)
    | ClearCart

  /** The status, the `cartItemId` of POST answers and the rows of GET answers. */
  datatype Response = Response(status: int, cartItemId: Option<nat>, items: seq<Row>)

  function Status(status: int): Response {
    Response(status, None, [])
  }

  // ---------------------------------------------------------------------------
  // Row queries
  // ---------------------------------------------------------------------------

  /** `WHERE id = ? AND user_id = ?` finds a row. */
  predicate Owns(rows: seq<Row>, id: nat, user: nat) {
    exists i :: 0 <= i < |rows| && rows[i].id == id && rows[i].userId == user
  }

  /** `UPDATE cart_items SET quantity = ? WHERE id = ?` with a number. */
  function SetQuantity(rows: seq<Row>, id: nat, q: int): (r: seq<Row>)
    ensures |r| == |rows|
    ensures forall i :: 0 <= i < |r| ==>
      r[i] == if rows[i].id == id then rows[i].(quantity := Some(q)) else rows[i]
  {
    if rows == [] then []
    else [if rows[0].id == id then rows[0].(quantity := Some(q)) else rows[0]] + SetQuantity(rows[1..], id, q)
  }

  /** JavaScript's `a + b` where either side may be `null`, which counts as 0. */
  function PlusNull(a: Option<int>, b: Option<int>): int {
    a.GetOr(0) + b.GetOr(0)
  }

  /** `DELETE FROM cart_items WHERE` the row satisfies `p`, keeping the others in order. */
  function DeleteWhere(rows: seq<Row>, p: Row -> bool): (r: seq<Row>)
    ensures forall i :: 0 <= i < |r| ==> !p(r[i]) && r[i] in rows
    ensures forall x :: x in rows && !p(x) ==> x in r
    ensures |r| <= |rows|
  {
    if rows == [] then []
    else
      var rest := DeleteWhere(rows[1..], p);
      assert forall x :: x in rows ==> x == rows[0] || x in rows[1..];
      if p(rows[0]) then rest else [rows[0]] + rest
  }

  /** Deleting keeps the surviving rows in their original order. */
  lemma {:induction false} DeleteWhereAppend(a: seq<Row>, b: seq<Row>, p: Row -> bool)
    ensures DeleteWhere(a + b, p) == DeleteWhere(a, p) + DeleteWhere(b, p)
    decreases |a|
  {
    if a == [] {
      assert a + b == b;
    } else {
      assert (a + b)[0] == a[0];
      assert (a + b)[1..] == a[1..] + b;
      DeleteWhereAppend(a[1..], b, p);
    }
  }

  // ---------------------------------------------------------------------------
  // Matching an existing line on POST
  // ---------------------------------------------------------------------------

  /** SQL `size = ?`: a comparison with NULL on either side is never true. */
  predicate SqlEquals(stored: Option<string>, given: Option<string>) {
    stored.Some? && given.Some? && stored.value == given.value
  }

  /** MySQL's null-safe `size <=> ?`: two NULLs are equal. */
  predicate NullSafeEquals(stored: Option<string>, given: Option<string>) {
    stored == given
  }

  /** `WHERE user_id = ? AND product_id = ? AND size ...` for one row, with the size
      comparison as written (`=`) or null-safe (`<=>`). */
  predicate LineMatches(x: Row, user: nat, pid: string, size: Option<string>, nullSafe: bool) {
    x.userId == user && x.productId == pid &&
    (if nullSafe then NullSafeEquals(x.size, size) else SqlEquals(x.size, size))
  }

  /** `existingItems[0]`: the first matching row in table order. */
  function FirstMatch(rows: seq<Row>, user: nat, pid: string, size: Option<string>, nullSafe: bool): (r: Option<Row>)
    ensures r.Some? ==> r.value in rows && LineMatches(r.value, user, pid, size, nullSafe)
    ensures r.None? ==> forall i :: 0 <= i < |rows| ==> !LineMatches(rows[i], user, pid, size, nullSafe)
  {
    Rows.First(rows, (x: Row) => LineMatches(x, user, pid, size, nullSafe))
  }

  // ---------------------------------------------------------------------------
  // The handlers (after authentication)
  // ---------------------------------------------------------------------------

  /** `GET /`: the user's rows whose product still exists (the JOIN), newest first. */
  function GetRows(t: Table, user: nat, stock: Stock): (r: Response)
    ensures r.status == Http.OK
    ensures forall x :: x in r.items <==> x in t.rows && x.userId == user && x.productId in stock
  {
    var mine := DeleteWhere(t.rows, (x: Row) => x.userId != user || x.productId !in stock);
    Response(Http.OK, None, Reverse(mine))
  }

  /** `s` backwards. */
  function Reverse(s: seq<Row>): (r: seq<Row>)
    ensures |r| == |s|
    ensures forall i :: 0 <= i < |s| ==> r[i] == s[|s| - 1 - i]
    ensures forall x :: x in r <==> x in s
  {
    if s == [] then []
    else
      assert forall x :: x in s <==> x == s[0] || x in s[1..];
      Reverse(s[1..]) + [s[0]]
  }

  /** In a valid table the listing is newest first: ids strictly descend. */
  lemma GetNewestFirst(t: Table, user: nat, stock: Stock)
    requires Valid(t)
    ensures var items := GetRows(t, user, stock).items;
      forall i, j :: 0 <= i < j < |items| ==> items[i].id > items[j].id
  {
    var mine := DeleteWhere(t.rows, (x: Row) => x.userId != user || x.productId !in stock);
    DeleteKeepsOrder(t.rows, (x: Row) => x.userId != user || x.productId !in stock);
    var items := Reverse(mine);
    forall i, j | 0 <= i < j < |items|
      ensures items[i].id > items[j].id
    {
      assert Before(mine[|mine| - 1 - j], mine[|mine| - 1 - i]);
    }
  }

  /** `POST /` with the size comparison as written (`nullSafe == false`) or
      null-safe. Checks run in the order: product id, product exists, in stock.
      `writeFails` is the database refusing the UPDATE or INSERT that follows,
      which the `catch` answers with 500 and no change. */
  function AddWith(t: Table, user: nat, stock: Stock, body: AddBody, nullSafe: bool, writeFails: bool): (r: (Table, Response))
    ensures !Truthy(body.productId) ==> r == (t, Status(Http.BadRequest))
    ensures Truthy(body.productId) && body.productId.value !in stock ==> r == (t, Status(Http.NotFound))
    ensures Truthy(body.productId) && body.productId.value in stock && !stock[body.productId.value] ==>
      r == (t, Status(Http.BadRequest))
    ensures Stocked(stock, body) && writeFails ==> r == (t, Status(Http.ServerError))
  {
    if !Truthy(body.productId) then (t, Status(Http.BadRequest))
    else
      var pid := body.productId.value;
      if pid !in stock then (t, Status(Http.NotFound))
      else if !stock[pid] then (t, Status(Http.BadRequest))
      else if writeFails then (t, Status(Http.ServerError))
      else Merge(t, user, pid, WithDefault(body.quantity, 1), OrNull(body.size), nullSafe)
  }

  /** The end of `POST /` once the product is known to be in stock: raise the
      first matching row by `q`, or insert a new row with the next id; `q` is
      `None` for a `null` quantity. */
  function Merge(t: Table, user: nat, pid: string, q: Option<int>, size: Option<string>, nullSafe: bool): (r: (Table, Response))
  {
    MergeWith(t, FirstMatch(t.rows, user, pid, size, nullSafe), user, pid, q, size)
  }

  /** The merge once the matching row `m` is known. */
  function MergeWith(t: Table, m: Option<Row>, user: nat, pid: string, q: Option<int>, size: Option<string>): (r: (Table, Response))
  {
    match m
    case Some(x) =>
      (Table(SetQuantity(t.rows, x.id, PlusNull(x.quantity, q)), t.nextId), Response(Http.OK, Some(x.id), []))
    case None =>
      var row := Row(t.nextId, user, pid, q, size);
      (Table(t.rows + [row], t.nextId + 1), Response(Http.Created, Some(t.nextId), []))
  }

  /** The product in the body exists and is in stock, so POST reaches the merge. */
  predicate Stocked(stock: Stock, body: AddBody) {
    Truthy(body.productId) && body.productId.value in stock && stock[body.productId.value]
  }

  /** `POST /` as written: `size = ?` is never true for a NULL size, so a POST
      without a size always inserts a new row. */
  function AddAsWritten(t: Table, user: nat, stock: Stock, body: AddBody, writeFails: bool): (r: (Table, Response))
    ensures Stocked(stock, body) && !Truthy(body.size) && !writeFails ==>
      r.1.status == Http.Created && |r.0.rows| == |t.rows| + 1
  {
    var r := AddWith(t, user, stock, body, false, writeFails);
    if Stocked(stock, body) && !Truthy(body.size) && !writeFails then
      assert FirstMatch(t.rows, user, body.productId.value, None, false).None?;
      r
    else r
  }

  /** `POST /` with the null-safe size comparison the route evidently intends: a
      line the user already has (same product and size, a NULL size included) is
      merged, anything else is inserted. */
  function Add(t: Table, user: nat, stock: Stock, body: AddBody, writeFails: bool): (r: (Table, Response))
    ensures Stocked(stock, body) && !writeFails ==>
      (r.1.status == Http.OK <==>
         exists i :: 0 <= i < |t.rows| && SameLine(t.rows[i], Row(0, user, body.productId.value, None, OrNull(body.size))))
    ensures Stocked(stock, body) && !writeFails ==> r.1.status in {Http.OK, Http.Created}
  {
    var r := AddWith(t, user, stock, body, true, writeFails);
    if Stocked(stock, body) && !writeFails then
      var probe := Row(0, user, body.productId.value, None, OrNull(body.size));
      var m := FirstMatch(t.rows, user, body.productId.value, OrNull(body.size), true);
      assert m.Some? ==> exists i :: 0 <= i < |t.rows| && t.rows[i] == m.value;
      assert forall i :: 0 <= i < |t.rows| ==>
        (SameLine(t.rows[i], probe) <==> LineMatches(t.rows[i], user, body.productId.value, OrNull(body.size), true));
      r
    else r
  }

  /** `PUT /:cartItemId`: a missing, zero or sub-1 quantity is 400; a row the user
      does not own is 404; otherwise that row gets the quantity. */
  function Update(t: Table, user: nat, id: nat, quantity: Option<int>): (r: (Table, Response))
    ensures quantity.None? || quantity.value < 1 ==> r == (t, Status(Http.BadRequest))
    ensures quantity.Some? && quantity.value >= 1 && !Owns(t.rows, id, user) ==> r == (t, Status(Http.NotFound))
    ensures quantity.Some? && quantity.value >= 1 && Owns(t.rows, id, user) ==>
      r.1 == Status(Http.OK) && r.0.nextId == t.nextId && |r.0.rows| == |t.rows|
    ensures quantity.Some? && quantity.value >= 1 && Owns(t.rows, id, user) ==>
      forall i :: 0 <= i < |t.rows| ==>
        r.0.rows[i] == if t.rows[i].id == id then t.rows[i].(quantity := Some(quantity.value)) else t.rows[i]
  {
    if quantity.None? || quantity.value == 0 || quantity.value < 1 then (t, Status(Http.BadRequest))
    else if !Owns(t.rows, id, user) then (t, Status(Http.NotFound))
    else (Table(SetQuantity(t.rows, id, quantity.value), t.nextId), Status(Http.OK))
  }

  /** `DELETE /:cartItemId`: only a row the user owns is deleted, else 404. */
  function Remove(t: Table, user: nat, id: nat): (r: (Table, Response))
    ensures !Owns(t.rows, id, user) ==> r == (t, Status(Http.NotFound))
    ensures Owns(t.rows, id, user) ==> r.1 == Status(Http.OK) && r.0.nextId == t.nextId
    ensures Owns(t.rows, id, user) ==> forall x :: x in r.0.rows <==> x in t.rows && x.id != id
  {
    if !Owns(t.rows, id, user) then (t, Status(Http.NotFound))
    else (Table(DeleteWhere(t.rows, (x: Row) => x.id == id), t.nextId), Status(Http.OK))
  }

  /** `DELETE /`: exactly the user's rows go. */
  function Clear(t: Table, user: nat): (r: (Table, Response))
    ensures r.1 == Status(Http.OK) && r.0.nextId == t.nextId
    ensures forall x :: x in r.0.rows <==> x in t.rows && x.userId != user
  {
    (Table(DeleteWhere(t.rows, (x: Row) => x.userId == user), t.nextId), Status(Http.OK))
  }

  /** The router: `authenticateToken` first, then the route for the request,
      with POST's size comparison as written (`nullSafe == false`) or null-safe. */
  function RouteWith(t: Table, stock: Stock, cred: Credentials, verify: string -> Option<Payload>, req: CartRequest,
                     nullSafe: bool): (r: (Table, Response))
  {
    match Authenticate(cred, verify)
    case Halt(status) => (t, Status(status))
    case Next(payload) =>
      var user := payload.userId;
      match req
      case GetCart => (t, GetRows(t, user, stock))
      case AddToCart(body, writeFails) => AddWith(t, user, stock, body, nullSafe, writeFails)
      case UpdateItem(id, q) => Update(t, user, id, q)
      case RemoveItem(id) => Remove(t, user, id)
      case ClearCart => Clear(t, user)
  }

  /** The router as written: a request past authentication reaches its handler,
      and POST compares sizes with `=`. */
  function RouteAsWritten(t: Table, stock: Stock, cred: Credentials, verify: string -> Option<Payload>, req: CartRequest): (r: (Table, Response))
    ensures Authenticate(cred, verify).Halt? ==> r == (t, Status(Authenticate(cred, verify).status))
    ensures req.GetCart? ==> r.0 == t
    ensures Authenticate(cred, verify).Next? && req.AddToCart? ==>
      r == AddAsWritten(t, Authenticate(cred, verify).user.userId, stock, req.body, req.writeFails)
  {
    RouteWith(t, stock, cred, verify, req, false)
  }

  /** The router with the corrected, null-safe POST. */
  function Route(t: Table, stock: Stock, cred: Credentials, verify: string -> Option<Payload>, req: CartRequest): (r: (Table, Response))
    ensures Authenticate(cred, verify).Halt? ==> r == (t, Status(Authenticate(cred, verify).status))
    ensures req.GetCart? ==> r.0 == t
    ensures Authenticate(cred, verify).Next? && req.AddToCart? ==>
      r == Add(t, Authenticate(cred, verify).user.userId, stock, req.body, req.writeFails)
  {
    RouteWith(t, stock, cred, verify, req, true)
  }

  // ---------------------------------------------------------------------------
  // Properties
  // ---------------------------------------------------------------------------

  /** With a `null` quantity, a POST that finds its line, stored with a number,
      changes nothing in the table and still answers 200: `n + null` is `n`. */
  lemma NullQuantityAddsNothing(t: Table, user: nat, stock: Stock, body: AddBody, nullSafe: bool)
    requires Numbered(t)
    requires Stocked(stock, body) && body.quantity.Null?
    requires FirstMatch(t.rows, user, body.productId.value, OrNull(body.size), nullSafe).Some?
    requires FirstMatch(t.rows, user, body.productId.value, OrNull(body.size), nullSafe).value.quantity.Some?
    ensures var r := AddWith(t, user, stock, body, nullSafe, false);
      r.0 == t && r.1.status == Http.OK
  {
    var m := FirstMatch(t.rows, user, body.productId.value, OrNull(body.size), nullSafe).value;
    AddMergesOrInserts(t, user, stock, body, nullSafe);
    var t' := AddWith(t, user, stock, body, nullSafe, false).0;
    forall i | 0 <= i < |t.rows|
      ensures t'.rows[i] == t.rows[i]
    {
      if t.rows[i].id == m.id {
        assert t.rows[i] == m by {
          var k :| 0 <= k < |t.rows| && t.rows[k] == m;
          AscendingOrder(t.rows, k, i);
          AscendingOrder(t.rows, i, k);
        }
      }
    }
    assert t'.rows == t.rows;
  }

  /** The id of the row a POST merges into. */
  function MatchedId(t: Table, user: nat, body: AddBody, nullSafe: bool): nat
    requires Truthy(body.productId)
    requires FirstMatch(t.rows, user, body.productId.value, OrNull(body.size), nullSafe).Some?
  {
    FirstMatch(t.rows, user, body.productId.value, OrNull(body.size), nullSafe).value.id
  }

  /** In ascending rows, the order of two rows' ids is the order of the rows. */
  lemma AscendingOrder(rows: seq<Row>, a: nat, b: nat)
    requires Ascending(rows) && a < |rows| && b < |rows|
    ensures rows[a].id < rows[b].id <==> a < b
  {
    if a < b {
      assert IdBefore(rows[a], rows[b]);
    } else if b < a {
      assert IdBefore(rows[b], rows[a]);
    }
  }

  /** The same POST on a line whose stored quantity is NULL does change the row:
      `null + null` is 0, so the quantity becomes 0, with a 200. */
  lemma NullQuantityOnNullLine(t: Table, user: nat, stock: Stock, body: AddBody, nullSafe: bool)
    requires Stocked(stock, body) && body.quantity.Null?
    requires FirstMatch(t.rows, user, body.productId.value, OrNull(body.size), nullSafe).Some?
    requires FirstMatch(t.rows, user, body.productId.value, OrNull(body.size), nullSafe).value.quantity.None?
    ensures var r := AddWith(t, user, stock, body, nullSafe, false);
      && r.1.status == Http.OK
      && forall i :: 0 <= i < |t.rows| && t.rows[i].id == MatchedId(t, user, body, nullSafe) ==>
           r.0.rows[i].quantity == Some(0)
  {
    AddMergesOrInserts(t, user, stock, body, nullSafe);
  }

  /** A POST past the product checks either raises the quantity of one matching
      row by the requested amount, adding no row, or appends one new row. An
      absent quantity counts 1; a `null` one adds 0 on a merge (`n + null` is
      `n`) and is stored as NULL on an insert; a NULL stored quantity counts 0. */
  lemma AddMergesOrInserts(t: Table, user: nat, stock: Stock, body: AddBody, nullSafe: bool)
    requires Truthy(body.productId) && body.productId.value in stock && stock[body.productId.value]
    ensures var (t', resp) := AddWith(t, user, stock, body, nullSafe, false);
      var m := FirstMatch(t.rows, user, body.productId.value, OrNull(body.size), nullSafe);
      && (m.Some? ==>
            resp.status == Http.OK && resp.cartItemId == Some(m.value.id)
            && t'.nextId == t.nextId && |t'.rows| == |t.rows|
            && (forall i :: 0 <= i < |t.rows| && t.rows[i].id != m.value.id ==> t'.rows[i] == t.rows[i])
            && (forall i :: 0 <= i < |t.rows| && t.rows[i].id == m.value.id ==>
                  && t'.rows[i] == t.rows[i].(quantity := t'.rows[i].quantity)
                  && t'.rows[i].quantity == Some(m.value.quantity.GetOr(0) + match body.quantity
                                                   case Absent => 1
                                                   case Null => 0
                                                   case Present(n) => n)))
      && (m.None? ==>
            resp.status == Http.Created && resp.cartItemId == Some(t.nextId)
            && t'.nextId == t.nextId + 1
            && t'.rows == t.rows + [Row(t.nextId, user, body.productId.value,
                                        if body.quantity.Null? then None
                                        else Some(if body.quantity.Absent? then 1 else body.quantity.value),
                                        OrNull(body.size))])
  {
  }

  /** Adding the same sizeless product twice to an empty cart as written leaves two
      rows for the same line. */
  lemma AsWrittenDuplicatesLine(user: nat, pid: string)
    requires pid != ""
    ensures var stock := map[pid := true];
      var body := AddBody(Some(pid), Absent, None);
      var t1 := AddAsWritten(Table([], 0), user, stock, body, false).0;
      var t2 := AddAsWritten(t1, user, stock, body, false).0;
      |t2.rows| == 2 && !NoDuplicateLines(t2.rows)
  {
    var stock := map[pid := true];
    var body := AddBody(Some(pid), Absent, None);
    var t1 := AddAsWritten(Table([], 0), user, stock, body, false).0;
    assert t1.rows == [Row(0, user, pid, Some(1), None)];
    AddMergesOrInserts(t1, user, stock, body, false);
    assert FirstMatch(t1.rows, user, pid, None, false).None?;
    var t2 := AddAsWritten(t1, user, stock, body, false).0;
    assert AddAsWritten(t1, user, stock, body, false) == AddWith(t1, user, stock, body, false, false);
    assert t2.rows == t1.rows + [Row(1, user, pid, Some(1), None)];
    assert SameLine(t2.rows[0], t2.rows[1]);
  }

  /** With the null-safe comparison, the same two POSTs leave one row holding both units. */
  lemma CorrectedMergesLine(user: nat, pid: string)
    requires pid != ""
    ensures var stock := map[pid := true];
      var body := AddBody(Some(pid), Absent, None);
      var t1 := Add(Table([], 0), user, stock, body, false).0;
      var t2 := Add(t1, user, stock, body, false).0;
      t2.rows == [Row(0, user, pid, Some(2), None)]
  {
    var stock := map[pid := true];
    var body := AddBody(Some(pid), Absent, None);
    var t1 := Add(Table([], 0), user, stock, body, false).0;
    assert t1.rows == [Row(0, user, pid, Some(1), None)];
    assert FirstMatch(t1.rows, user, pid, None, true) == Some(Row(0, user, pid, Some(1), None));
  }

  /** The invariant rules out duplicate lines. */
  lemma ValidNoDuplicates(t: Table)
    requires Valid(t)
    ensures NoDuplicateLines(t.rows)
  {
  }

  /** Every route of the corrected router keeps the table invariant, no line twice included. */
  lemma RoutePreservesValid(t: Table, stock: Stock, cred: Credentials, verify: string -> Option<Payload>, req: CartRequest)
    requires Valid(t)
    ensures Valid(Route(t, stock, cred, verify, req).0)
  {
    match Authenticate(cred, verify)
    case Halt(_) =>
    case Next(payload) =>
      var user := payload.userId;
      match req
      case GetCart =>
      case AddToCart(body, writeFails) => AddPreserves(t, user, stock, body, writeFails);
      case UpdateItem(id, q) =>
        if q.Some? && q.value >= 1 && Owns(t.rows, id, user) {
          SetQuantityPreserves(t, id, q.value, Update(t, user, id, q).0);
        }
      case RemoveItem(id) => DeletePreserves(t, (x: Row) => x.id == id);
      case ClearCart => DeletePreserves(t, (x: Row) => x.userId == user);
  }

  /** Setting a quantity changes no id, user, product or size. */
  lemma SetQuantityPreserves(t: Table, id: nat, q: int, t': Table)
    requires Valid(t) && t' == Table(SetQuantity(t.rows, id, q), t.nextId)
    ensures Valid(t')
  {
    var r := t'.rows;
    assert forall i :: 0 <= i < |r| ==> r[i].id == t.rows[i].id && SameLine(r[i], t.rows[i]);
    forall i, j | 0 <= i < j < |r|
      ensures Before(r[i], r[j])
    {
      assert Before(t.rows[i], t.rows[j]);
    }
  }

  /** Appending a fresh row for a line not yet present keeps the invariant. */
  lemma AppendPreserves(t: Table, row: Row, t': Table)
    requires Valid(t) && row.id == t.nextId && t' == Table(t.rows + [row], t.nextId + 1)
    requires forall i :: 0 <= i < |t.rows| ==> !SameLine(t.rows[i], row)
    ensures Valid(t')
  {
    var rows := t'.rows;
    forall i, j | 0 <= i < j < |rows|
      ensures Before(rows[i], rows[j])
    {
      if j < |t.rows| {
        assert rows[i] == t.rows[i] && rows[j] == t.rows[j];
      } else {
        assert rows[i] == t.rows[i] && rows[j] == row;
      }
    }
  }

  lemma AddPreserves(t: Table, user: nat, stock: Stock, body: AddBody, writeFails: bool)
    requires Valid(t)
    ensures Valid(Add(t, user, stock, body, writeFails).0)
  {
    if Stocked(stock, body) && !writeFails {
      MergePreserves(t, user, body.productId.value, WithDefault(body.quantity, 1), OrNull(body.size));
    }
  }

  /** The null-safe merge never creates a second row for a line. */
  lemma MergePreserves(t: Table, user: nat, pid: string, q: Option<int>, size: Option<string>)
    requires Valid(t)
    ensures Valid(Merge(t, user, pid, q, size, true).0)
  {
    MergeCases(t, FirstMatch(t.rows, user, pid, size, true), user, pid, q, size);
  }

  /** The two outcomes of the merge keep the invariant when an absent match
      means no row is the line. */
  lemma MergeCases(t: Table, m: Option<Row>, user: nat, pid: string, q: Option<int>, size: Option<string>)
    requires Valid(t)
    requires m.None? ==> forall i :: 0 <= i < |t.rows| ==> !LineMatches(t.rows[i], user, pid, size, true)
    ensures Valid(MergeWith(t, m, user, pid, q, size).0)
  {
    var r := MergeWith(t, m, user, pid, q, size).0;
    if m.Some? {
      assert Valid(r) by { SetQuantityPreserves(t, m.value.id, PlusNull(m.value.quantity, q), r); }
    } else {
      assert Valid(r) by { AppendPreserves(t, Row(t.nextId, user, pid, q, size), r); }
    }
  }

  /** Deleting rows keeps the invariant. */
  lemma DeletePreserves(t: Table, p: Row -> bool)
    requires Valid(t)
    ensures Valid(Table(DeleteWhere(t.rows, p), t.nextId))
  {
    DeleteKeepsOrder(t.rows, p);
  }

  /** The first row comes before every later one. */
  lemma HeadBefore(rows: seq<Row>, x: Row)
    requires Ordered(rows) && rows != [] && x in rows[1..]
    ensures Before(rows[0], x)
  {
    var j :| 0 <= j < |rows[1..]| && rows[1..][j] == x;
    assert rows[j + 1] == x;
  }

  /** The rows `DeleteWhere` keeps are still in order, each line once. */
  lemma {:induction false} DeleteKeepsOrder(rows: seq<Row>, p: Row -> bool)
    requires Ordered(rows)
    ensures Ordered(DeleteWhere(rows, p))
    decreases |rows|
  {
    if rows != [] {
      assert Ordered(rows[1..]) by {
        forall i, j | 0 <= i < j < |rows[1..]|
          ensures Before(rows[1..][i], rows[1..][j])
        {
          assert rows[1..][i] == rows[i + 1] && rows[1..][j] == rows[j + 1];
        }
      }
      DeleteKeepsOrder(rows[1..], p);
      var rest := DeleteWhere(rows[1..], p);
      if !p(rows[0]) {
        var r := [rows[0]] + rest;
        forall i, j | 0 <= i < j < |r|
          ensures Before(r[i], r[j])
        {
          assert r[j] == rest[j - 1];
          if i == 0 {
            HeadBefore(rows, rest[j - 1]);
          } else {
            assert r[i] == rest[i - 1];
          }
        }
      }
    }
  }

  /** Every row carrying `id` belongs to `user`. */
  ghost predicate IdOwnedBy(rows: seq<Row>, id: nat, user: nat) {
    forall i :: 0 <= i < |rows| && rows[i].id == id ==> rows[i].userId == user
  }

  /** `a` and `b` hold the same rows of user `other`. */
  ghost predicate SameRowsOf(a: seq<Row>, b: seq<Row>, other: nat) {
    forall x: Row :: x.userId == other ==> (x in a <==> x in b)
  }

  /** Ids are unique, so the owner found by the ownership check owns every row with that id. */
  lemma OwnerIsUnique(t: Table, id: nat, user: nat)
    requires Numbered(t) && Owns(t.rows, id, user)
    ensures IdOwnedBy(t.rows, id, user)
  {
    var k :| 0 <= k < |t.rows| && t.rows[k].id == id && t.rows[k].userId == user;
    forall i | 0 <= i < |t.rows| && t.rows[i].id == id
      ensures t.rows[i].userId == user
    {
      IdsUnique(t, i, k);
    }
  }

  /** Two rows with the same id are the same row. */
  lemma IdsUnique(t: Table, i: nat, k: nat)
    requires Numbered(t) && i < |t.rows| && k < |t.rows|
    ensures t.rows[i].id == t.rows[k].id ==> i == k
  {
    if i < k {
      assert IdBefore(t.rows[i], t.rows[k]);
    } else if k < i {
      assert IdBefore(t.rows[k], t.rows[i]);
    }
  }

  /** Changing the quantity of a row owned by `user` leaves every other user's rows as they were. */
  lemma SetQuantityOthers(rows: seq<Row>, id: nat, q: int, user: nat, other: nat)
    requires IdOwnedBy(rows, id, user) && other != user
    ensures SameRowsOf(SetQuantity(rows, id, q), rows, other)
  {
    var r := SetQuantity(rows, id, q);
    forall x: Row | x.userId == other
      ensures x in r <==> x in rows
    {
      if x in r {
        var i :| 0 <= i < |r| && r[i] == x;
        assert rows[i].userId == x.userId;
      }
      if x in rows {
        var i :| 0 <= i < |rows| && rows[i] == x;
        assert r[i] == x;
      }
    }
  }

  /** Deleting a row owned by `user` leaves every other user's rows as they were. */
  lemma DeleteOthers(rows: seq<Row>, id: nat, user: nat, other: nat)
    requires IdOwnedBy(rows, id, user) && other != user
    ensures SameRowsOf(DeleteWhere(rows, (x: Row) => x.id == id), rows, other)
  {
    forall x: Row | x.userId == other && x in rows
      ensures x.id != id
    {
      var i :| 0 <= i < |rows| && rows[i] == x;
    }
  }

  /** Users are isolated: whatever an authenticated user asks of the cart router,
      as written or corrected, the rows of any other user stay exactly as they were. */
  lemma RouteIsolatesUsers(t: Table, stock: Stock, cred: Credentials, verify: string -> Option<Payload>, req: CartRequest,
                           other: nat, nullSafe: bool)
    requires Numbered(t)
    requires Authenticate(cred, verify).Next? ==> Authenticate(cred, verify).user.userId != other
    ensures SameRowsOf(RouteWith(t, stock, cred, verify, req, nullSafe).0.rows, t.rows, other)
  {
    match Authenticate(cred, verify)
    case Halt(_) =>
    case Next(payload) =>
      var user := payload.userId;
      match req
      case GetCart =>
      case AddToCart(body, writeFails) =>
        if Stocked(stock, body) && !writeFails {
          var size := OrNull(body.size);
          match FirstMatch(t.rows, user, body.productId.value, size, nullSafe)
          case Some(x) =>
            OwnerIsUnique(t, x.id, user);
            SetQuantityOthers(t.rows, x.id, PlusNull(x.quantity, WithDefault(body.quantity, 1)), user, other);
          case None =>
        }
      case UpdateItem(id, q) =>
        if q.Some? && q.value >= 1 && Owns(t.rows, id, user) {
          OwnerIsUnique(t, id, user);
          SetQuantityOthers(t.rows, id, q.value, user, other);
        }
      case RemoveItem(id) =>
        if Owns(t.rows, id, user) {
          OwnerIsUnique(t, id, user);
          DeleteOthers(t.rows, id, user, other);
        }
      case ClearCart =>
  }

  /** Every route of the router as written keeps ids ascending and below the
      counter; unlike the corrected router it can repeat a line
      (`AsWrittenDuplicatesLine`). */
  lemma RouteAsWrittenKeepsNumbering(t: Table, stock: Stock, cred: Credentials, verify: string -> Option<Payload>,
                                     req: CartRequest)
    requires Numbered(t)
    ensures Numbered(RouteAsWritten(t, stock, cred, verify, req).0)
  {
    match Authenticate(cred, verify)
    case Halt(_) =>
    case Next(payload) =>
      var user := payload.userId;
      match req
      case GetCart =>
      case AddToCart(body, writeFails) =>
        if Stocked(stock, body) && !writeFails {
          var m := FirstMatch(t.rows, user, body.productId.value, OrNull(body.size), false);
          MergeKeepsNumbering(t, m, user, body.productId.value, WithDefault(body.quantity, 1), OrNull(body.size));
        }
      case UpdateItem(id, q) =>
        if q.Some? && q.value >= 1 && Owns(t.rows, id, user) {
          SetQuantityKeepsNumbering(t, id, q.value);
        }
      case RemoveItem(id) => DeleteKeepsNumbering(t, (x: Row) => x.id == id);
      case ClearCart => DeleteKeepsNumbering(t, (x: Row) => x.userId == user);
  }

  lemma SetQuantityKeepsNumbering(t: Table, id: nat, q: int)
    requires Numbered(t)
    ensures Numbered(Table(SetQuantity(t.rows, id, q), t.nextId))
  {
    var r := SetQuantity(t.rows, id, q);
    assert forall i :: 0 <= i < |r| ==> r[i].id == t.rows[i].id;
  }

  /** Either outcome of a merge, whatever row it matched, keeps the numbering. */
  lemma MergeKeepsNumbering(t: Table, m: Option<Row>, user: nat, pid: string, q: Option<int>, size: Option<string>)
    requires Numbered(t)
    ensures Numbered(MergeWith(t, m, user, pid, q, size).0)
  {
    if m.Some? {
      SetQuantityKeepsNumbering(t, m.value.id, PlusNull(m.value.quantity, q));
    } else {
      var rows := t.rows + [Row(t.nextId, user, pid, q, size)];
      assert forall i :: 0 <= i < |t.rows| ==> rows[i] == t.rows[i];
    }
  }

  lemma DeleteKeepsNumbering(t: Table, p: Row -> bool)
    requires Numbered(t)
    ensures Numbered(Table(DeleteWhere(t.rows, p), t.nextId))
  {
    DeleteKeepsAscending(t.rows, p);
  }

  /** The rows `DeleteWhere` keeps still have ascending ids. */
  lemma {:induction false} DeleteKeepsAscending(rows: seq<Row>, p: Row -> bool)
    requires Ascending(rows)
    ensures Ascending(DeleteWhere(rows, p))
    decreases |rows|
  {
    if rows != [] {
      assert Ascending(rows[1..]) by {
        forall i, j | 0 <= i < j < |rows[1..]|
          ensures IdBefore(rows[1..][i], rows[1..][j])
        {
          assert rows[1..][i] == rows[i + 1] && rows[1..][j] == rows[j + 1];
        }
      }
      DeleteKeepsAscending(rows[1..], p);
      var rest := DeleteWhere(rows[1..], p);
      if !p(rows[0]) {
        var r := [rows[0]] + rest;
        forall i, j | 0 <= i < j < |r|
          ensures IdBefore(r[i], r[j])
        {
          assert r[j] == rest[j - 1];
          if i == 0 {
            HeadLess(rows, rest[j - 1]);
          } else {
            assert r[i] == rest[i - 1];
          }
        }
      }
    }
  }

  /** The first row's id is below every later one's. */
  lemma HeadLess(rows: seq<Row>, x: Row)
    requires Ascending(rows) && rows != [] && x in rows[1..]
    ensures IdBefore(rows[0], x)
  {
    var j :| 0 <= j < |rows[1..]| && rows[1..][j] == x;
    assert rows[j + 1] == x;
  }
}
