/** The `/api/products` routes of `backend/src/productsRoutes.js` over an abstract
    `products` table: listing newest first, lookup by id, creation with its
    validation, column defaults and error mapping, and deletion. The outcomes of
    the insert and of the delete are parameters. */
module ProductsRoutes {
  import opened Wrappers
  import Http
  import Rows

  /** One `products` row; `None` stands for SQL NULL. */
  datatype ProductRow = ProductRow(
    id: nat,
    name: string,
    brand: Option<string>,
    description: Option<string>,
    price: real,
    category: Option<string>,
    imageUrl: Option<string>,
    inStock: bool)

  /** The rows in insertion order and the next auto-increment id. */
  datatype Table = Table(rows: seq<ProductRow>, nextId: nat)

  /** Ids ascend in insertion order and stay below the next id. */
  predicate Valid(t: Table) {
    && (forall i, j :: 0 <= i < j < |t.rows| ==> t.rows[i].id < t.rows[j].id)
    && (forall i :: 0 <= i < |t.rows| ==> t.rows[i].id < t.nextId)
  }

  /** The fields `POST /` reads from the body; `price` is `None` when it is
      `null` or `undefined`, and `inStock` is `None` when it is not a boolean. */
  datatype CreateBody = CreateBody(
    name: Option<string>,
    brand: Option<string>,
    description: Option<string>,
    price: Option<real>,
    category: Option<string>,
    imageUrl: Option<string>,
    inStock: Option<bool>)

  /** How the insert ends: it succeeds, or it throws with an error code (none
      when the error carries no `code`). */
  datatype Insert = Inserted | InsertFails(code: Option<string>)

  /** What a route answers. */
  datatype Reply =
    | Error(status: int, message: string)
    | Listed(products: seq<ProductRow>)
    | Found(product: ProductRow)
    | Created(product: ProductRow)
    | Deleted

  function StatusOf(r: Reply): int {
    match r
    case Error(status, _) => status
    case Listed(_) => Http.OK
    case Found(_) => Http.OK
    case Created(_) => Http.Created
    case Deleted => Http.NoContent
  }

  const NotFoundMessage := "Product not found"
  const RequiredMessage := "Name and price are required"
  const TooLargeMessage :=
    "The image data is too large to store. Please upload a smaller image or use a shorter image URL."
  const CreateFailedMessage := "Failed to create product"
  const DeleteFailedMessage := "Failed to delete product"
  const DataTooLong := "ER_DATA_TOO_LONG"

  /** `ORDER BY created_at DESC`: the rows, latest insert first. */
  function NewestFirst(rows: seq<ProductRow>): (r: seq<ProductRow>)
    ensures |r| == |rows|
    ensures forall i :: 0 <= i < |rows| ==> r[i] == rows[|rows| - 1 - i]
  {
    if rows == [] then []
    else [rows[|rows| - 1]] + NewestFirst(rows[..|rows| - 1])
  }

  /** `GET /`: every product, newest first. */
  function List(t: Table): (r: Reply)
    ensures r.Listed? && |r.products| == |t.rows|
    ensures forall p :: p in r.products <==> p in t.rows
  {
    var listed := NewestFirst(t.rows);
    assert forall p :: p in listed ==> p in t.rows by {
      forall p | p in listed ensures p in t.rows {
        var i :| 0 <= i < |listed| && listed[i] == p;
        assert t.rows[|t.rows| - 1 - i] == p;
      }
    }
    assert forall p :: p in t.rows ==> p in listed by {
      forall p | p in t.rows ensures p in listed {
        var j :| 0 <= j < |t.rows| && t.rows[j] == p;
        assert listed[|t.rows| - 1 - j] == p;
      }
    }
    Listed(listed)
  }

  /** In a valid table the listing's ids strictly descend. */
  lemma ListDescends(t: Table)
    requires Valid(t)
    ensures forall i, j :: 0 <= i < j < |List(t).products| ==> List(t).products[i].id > List(t).products[j].id
  {
    var r := List(t).products;
    assert r == NewestFirst(t.rows);
    forall i, j | 0 <= i < j < |r|
      ensures r[i].id > r[j].id
    {
      assert r[i] == t.rows[|t.rows| - 1 - i] && r[j] == t.rows[|t.rows| - 1 - j];
    }
  }

  /** The first row with id `id`, if any. */
  function Find(rows: seq<ProductRow>, id: nat): (r: Option<ProductRow>)
    ensures r.Some? ==> r.value in rows && r.value.id == id
    ensures r.None? <==> forall i :: 0 <= i < |rows| ==> rows[i].id != id
  {
    Rows.First(rows, (p: ProductRow) => p.id == id)
  }

  /** `GET /:id`: the product with that id, or 404. */
  function Get(t: Table, id: nat): (r: Reply)
    ensures r.Found? || r == Error(Http.NotFound, NotFoundMessage)
    ensures r.Found? ==> r.product in t.rows && r.product.id == id
    ensures r.Error? <==> forall i :: 0 <= i < |t.rows| ==> t.rows[i].id != id
  {
    match Find(t.rows, id)
    case Some(p) => Found(p)
    case None => Error(Http.NotFound, NotFoundMessage)
  }

  /** `!name || price == null` rejects: an empty name is missing, a zero price is not. */
  predicate CreateAccepted(body: CreateBody) {
    Truthy(body.name) && body.price.Some?
  }

  /** The row the insert writes: optional text columns default to NULL, and the
      product is in stock unless the body says exactly `false`. */
  function NewRow(id: nat, body: CreateBody): (r: ProductRow)
    requires CreateAccepted(body)
    ensures r.id == id && r.name == body.name.value && r.price == body.price.value
    ensures r.brand == OrNull(body.brand) && r.description == OrNull(body.description)
    ensures r.category == OrNull(body.category) && r.imageUrl == OrNull(body.imageUrl)
    ensures !r.inStock <==> body.inStock == Some(false)
  {
    ProductRow(id, body.name.value, OrNull(body.brand), OrNull(body.description), body.price.value,
               OrNull(body.category), OrNull(body.imageUrl), body.inStock != Some(false))
  }

  /** `POST /`: 400 before touching the table for a missing name or price; on a
      successful insert 201 with the stored row; an over-long value 400 and any
      other insert error 500, neither of which changes the table. */
  function Create(t: Table, body: CreateBody, insert: Insert): (r: (Reply, Table))
    ensures !CreateAccepted(body) ==> r == (Error(Http.BadRequest, RequiredMessage), t)
    ensures CreateAccepted(body) && insert.Inserted? ==>
      r == (Created(NewRow(t.nextId, body)), Table(t.rows + [NewRow(t.nextId, body)], t.nextId + 1))
    ensures CreateAccepted(body) && insert.InsertFails? ==> r.1 == t
    ensures CreateAccepted(body) && insert.InsertFails? ==>
      (StatusOf(r.0) == Http.BadRequest <==> insert.code == Some(DataTooLong))
    ensures StatusOf(r.0) == Http.ServerError ==> r.0 == Error(Http.ServerError, CreateFailedMessage)
  {
    if !CreateAccepted(body) then (Error(Http.BadRequest, RequiredMessage), t)
    else
      match insert
      case Inserted =>
        var row := NewRow(t.nextId, body);
        (Created(row), Table(t.rows + [row], t.nextId + 1))
      case InsertFails(code) =>
        if code == Some(DataTooLong) then (Error(Http.BadRequest, TooLargeMessage), t)
        else (Error(Http.ServerError, CreateFailedMessage), t)
  }

  /** A created product is found under its id afterwards, and the table stays valid. */
  lemma CreateThenGet(t: Table, body: CreateBody)
    requires Valid(t) && CreateAccepted(body)
    ensures var (reply, t') := Create(t, body, Inserted);
      && Valid(t')
      && Get(t', t.nextId) == Found(reply.product)
  {
    var (reply, t') := Create(t, body, Inserted);
    assert forall i :: 0 <= i < |t.rows| ==> t'.rows[i] == t.rows[i];
    assert Find(t.rows, t.nextId).None?;
    FindAppend(t.rows, NewRow(t.nextId, body));
  }

  /** Looking past rows without the id. */
  lemma {:induction false} FindAppend(rows: seq<ProductRow>, last: ProductRow)
    requires forall i :: 0 <= i < |rows| ==> rows[i].id != last.id
    ensures Find(rows + [last], last.id) == Some(last)
    decreases |rows|
  {
    if rows != [] {
      assert (rows + [last])[1..] == rows[1..] + [last];
      FindAppend(rows[1..], last);
    }
  }

  /** `prev.filter` by id on the table: the rows without that id, in order. */
  function Without(rows: seq<ProductRow>, id: nat): (r: seq<ProductRow>)
    ensures |r| <= |rows|
    ensures forall p :: p in r <==> p in rows && p.id != id
    ensures (forall i :: 0 <= i < |rows| ==> rows[i].id != id) ==> r == rows
  {
    if rows == [] then []
    else
      var rest := Without(rows[1..], id);
      assert forall p :: p in rows <==> p == rows[0] || p in rows[1..];
      if rows[0].id == id then rest
      else
        assert [rows[0]] + rows[1..] == rows;
        [rows[0]] + rest
  }

  /** `DELETE /:id`. When the statement runs, 204 whether or not a row had that
      id, and no row keeps it. When it throws (`fails`), 500 and the table is
      unchanged; the `order_items` foreign key on `product_id` makes it throw for
      every product that has been ordered. */
  function Delete(t: Table, id: nat, fails: bool): (r: (Reply, Table))
    ensures fails ==> r == (Error(Http.ServerError, DeleteFailedMessage), t)
    ensures !fails ==> r.0 == Deleted && r.1.nextId == t.nextId
    ensures !fails ==> forall p :: p in r.1.rows <==> p in t.rows && p.id != id
  {
    if fails then (Error(Http.ServerError, DeleteFailedMessage), t)
    else (Deleted, Table(Without(t.rows, id), t.nextId))
  }

  /** Deleting keeps the remaining rows in their order: ids still ascend. */
  lemma {:induction false} WithoutAscends(rows: seq<ProductRow>, id: nat)
    requires forall i, j :: 0 <= i < j < |rows| ==> rows[i].id < rows[j].id
    ensures forall i, j :: 0 <= i < j < |Without(rows, id)| ==> Without(rows, id)[i].id < Without(rows, id)[j].id
    decreases |rows|
  {
    if rows != [] {
      WithoutAscends(rows[1..], id);
      var rest := Without(rows[1..], id);
      if rows[0].id != id {
        forall k | 0 <= k < |rest|
          ensures rows[0].id < rest[k].id
        {
          assert rest[k] in rows[1..];
        }
      }
    }
  }

  /** After a delete that runs the id is gone, the table is still valid, and
      deleting again changes nothing; after one that throws, the lookup answers
      as before. */
  lemma DeleteThenGet(t: Table, id: nat)
    requires Valid(t)
    ensures var t' := Delete(t, id, false).1;
      && Valid(t')
      && Get(t', id) == Error(Http.NotFound, NotFoundMessage)
      && Delete(t', id, false).1 == t'
    ensures Get(Delete(t, id, true).1, id) == Get(t, id)
  {
    var t' := Delete(t, id, false).1;
    WithoutAscends(t.rows, id);
    assert forall i :: 0 <= i < |t'.rows| ==> t'.rows[i] in t.rows;
  }
}
