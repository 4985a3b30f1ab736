/** The local product list of `src/context/ProductsContext.tsx`: the initial load
    that an unmounted provider ignores, `addProduct` that appends only what the
    API created, and `deleteProduct` that removes at once whatever the API then
    answers. The API's answers are parameters. */
module ProductsContext {
  import opened Wrappers
  import opened Catalog

  /** `Omit<Product, 'id'>`: what `addProduct` is given. */
  datatype Draft = Draft(
    name: string,
    description: string,
    price: real,
    category: string,
    imageUrl: string,
    brand: Option<string>,
    inStock: Option<bool>)

  /** `{ ...product, inStock: true }`: the body sent to the API. */
  function CreateRequest(d: Draft): (r: Draft)
    ensures r.inStock == Some(true)
    ensures r.(inStock := d.inStock) == d
  {
    d.(inStock := Some(true))
  }

  /** `addProduct` once the API call settles: `created` is the product the API
      returned, or `None` when it threw. On success the product is appended and
      returned; on failure the list is kept and the error is rethrown (`None`). */
  function AddProduct(products: seq<Product>, created: Option<Product>): (r: (seq<Product>, Option<Product>))
    ensures r.1 == created
    ensures created.None? ==> r.0 == products
    ensures created.Some? ==> |r.0| == |products| + 1 && r.0[..|products|] == products && r.0[|products|] == created.value
  {
    match created
    case None => (products, None)
    case Some(p) => (products + [p], Some(p))
  }

  /** `prev.filter(p => p.id !== id)`. */
  function Remove(products: seq<Product>, id: string): (r: seq<Product>)
    ensures |r| <= |products|
    ensures forall p :: p in r <==> p in products && p.id != id
    decreases |products|
  {
    if products == [] then []
    else
      var rest := Remove(products[1..], id);
      assert forall p :: p in products <==> p == products[0] || p in products[1..];
      if products[0].id == id then rest else [products[0]] + rest
  }

  /** `small` is `big` with some elements left out, the rest in their order. */
  predicate Subsequence(small: seq<Product>, big: seq<Product>)
    decreases |big|
  {
    if big == [] then small == []
    else (small != [] && small[0] == big[0] && Subsequence(small[1..], big[1..])) || Subsequence(small, big[1..])
  }

  /** The products kept by `Remove` stay in their original order. */
  lemma {:induction false} RemoveKeepsOrder(products: seq<Product>, id: string)
    ensures Subsequence(Remove(products, id), products)
    decreases |products|
  {
    if products != [] {
      RemoveKeepsOrder(products[1..], id);
      var rest := Remove(products[1..], id);
      if products[0].id != id {
        assert ([products[0]] + rest)[1..] == rest;
      }
    }
  }

  /** `deleteProduct`: the local list loses every product with that id at once,
      keeping the others, and the API call's outcome (`apiSucceeds`) is never
      looked at. */
  function DeleteProduct(products: seq<Product>, id: string, apiSucceeds: bool): (r: seq<Product>)
    ensures forall p :: p in r <==> p in products && p.id != id
    ensures (forall i :: 0 <= i < |products| ==> products[i].id != id) ==> r == products
  {
    KeepsAbsent(products, id);
    Remove(products, id)
  }

  /** Removing an id no product has changes nothing. */
  lemma {:induction false} KeepsAbsent(products: seq<Product>, id: string)
    ensures (forall i :: 0 <= i < |products| ==> products[i].id != id) ==> Remove(products, id) == products
    decreases |products|
  {
    if products != [] {
      KeepsAbsent(products[1..], id);
      if forall i :: 0 <= i < |products| ==> products[i].id != id {
        assert forall i :: 0 <= i < |products[1..]| ==> products[1..][i] == products[i + 1];
        assert [products[0]] + products[1..] == products;
      }
    }
  }

  /** The provider's state: the list and whether the load effect was cleaned up. */
  datatype Provider = Provider(products: seq<Product>, cancelled: bool)

  /** What can happen to the provider after it mounts with an empty list. */
  datatype Event =
    | Loaded(list: seq<Product>)   // `getProducts()` resolved
    | LoadFailed                   // `getProducts()` threw: logged only
    | Unmounted                    // the effect's cleanup ran

  /** One event: a load replaces the list only while the effect is live. */
  function Step(s: Provider, e: Event): (r: Provider)
    ensures e.Unmounted? ==> r.cancelled && r.products == s.products
    ensures r.cancelled == (s.cancelled || e.Unmounted?)
    ensures e.Loaded? && !s.cancelled ==> r.products == e.list
    ensures (s.cancelled || !e.Loaded?) ==> r.products == s.products
  {
    match e
    case Loaded(list) => if s.cancelled then s else s.(products := list)
    case LoadFailed => s
    case Unmounted => s.(cancelled := true)
  }

  /** The state after a run of events. */
  function Run(s: Provider, events: seq<Event>): Provider
    decreases |events|
  {
    if events == [] then s else Run(Step(s, events[0]), events[1..])
  }

  /** Once the cleanup has run, no later load or failure touches the list. */
  lemma {:induction false} CancelledIgnoresLoads(s: Provider, events: seq<Event>)
    requires s.cancelled
    ensures Run(s, events) == s
    decreases |events|
  {
    if events != [] {
      CancelledIgnoresLoads(Step(s, events[0]), events[1..]);
    }
  }
}
