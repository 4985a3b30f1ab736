/** The client-side cart of `src/context/CartContext.tsx`: a reducer over a
    sequence of cart lines and the two totals the provider derives from it. */
module CartContext {
  import opened Wrappers

  /** One line of the client cart; `price` is a unit price, `quantity` a count. */
  datatype CartItem = CartItem(id: string, name: string, price: real, quantity: int, imageUrl: string)

  type Cart = seq<CartItem>

  /** The actions the reducer receives; `Unrecognized` is any other action type. */
  datatype CartAction =
    | AddItem(payload: CartItem)
    | UpdateQuantity(id: string, quantity: int)
    | RemoveItem(id: string)
    | ClearCart
    | Unrecognized

  const InitialCart: Cart := []

  /** No two lines carry the same product id. */
  ghost predicate UniqueIds(c: Cart) {
    forall i, j :: 0 <= i < j < |c| ==> c[i].id != c[j].id
  }

  predicate HasId(c: Cart, id: string) {
    exists i :: 0 <= i < |c| && c[i].id == id
  }

  /** `cartItems.find(item => item.id === id)`: the first line with that id. */
  function Find(c: Cart, id: string): (r: Option<CartItem>)
    ensures r.Some? <==> HasId(c, id)
    ensures r.Some? ==> r.value.id == id
  {
    if c == [] then None
    else if c[0].id == id then Some(c[0])
    else
      TailHasId(c, id);
      Find(c[1..], id)
  }

  lemma TailHasId(c: Cart, id: string)
    requires c != [] && c[0].id != id
    ensures HasId(c, id) <==> HasId(c[1..], id)
  {
    assert forall i :: 0 <= i < |c[1..]| ==> c[1..][i] == c[i + 1];
    if HasId(c, id) {
      var i :| 0 <= i < |c| && c[i].id == id;
      assert c[1..][i - 1].id == id;
    }
  }

  /** A line with `q` more units. */
  function MoreOf(item: CartItem, q: int): (r: CartItem)
    ensures r.id == item.id && r.price == item.price && r.quantity == item.quantity + q
    ensures r.name == item.name && r.imageUrl == item.imageUrl
  {
    item.(quantity := item.quantity + q)
  }

  /** The ADD_ITEM merge: every line with `id` gets `q` more, the others are kept. */
  function Bump(c: Cart, id: string, q: int): (r: Cart)
    ensures |r| == |c|
  {
    if c == [] then []
    else [if c[0].id == id then MoreOf(c[0], q) else c[0]] + Bump(c[1..], id, q)
  }

  /** The UPDATE_QUANTITY map: every line with `id` gets quantity `q`, the others are kept. */
  function Assign(c: Cart, id: string, q: int): (r: Cart)
    ensures |r| == |c|
  {
    if c == [] then []
    else [if c[0].id == id then c[0].(quantity := q) else c[0]] + Assign(c[1..], id, q)
  }

  /** The REMOVE_ITEM filter: the lines whose id differs from `id`, in order. */
  function Without(c: Cart, id: string): (r: Cart)
    ensures forall i :: 0 <= i < |r| ==> r[i].id != id
    ensures forall x: CartItem :: x.id != id ==> multiset(r)[x] == multiset(c)[x]
    ensures |r| <= |c|
  {
    if c == [] then []
    else
      var rest := Without(c[1..], id);
      assert c == [c[0]] + c[1..];
      if c[0].id == id then rest else [c[0]] + rest
  }

  lemma {:induction false} BumpAt(c: Cart, id: string, q: int)
    ensures forall i :: 0 <= i < |c| && c[i].id != id ==> Bump(c, id, q)[i] == c[i]
    ensures forall i :: 0 <= i < |c| && c[i].id == id ==> Bump(c, id, q)[i] == MoreOf(c[i], q)
    decreases |c|
  {
    if c != [] {
      BumpAt(c[1..], id, q);
      var r := Bump(c, id, q);
      assert forall i :: 1 <= i < |c| ==> r[i] == Bump(c[1..], id, q)[i - 1] && c[i] == c[1..][i - 1];
    }
  }

  lemma {:induction false} AssignAt(c: Cart, id: string, q: int)
    ensures forall i :: 0 <= i < |c| && c[i].id != id ==> Assign(c, id, q)[i] == c[i]
    ensures forall i :: 0 <= i < |c| && c[i].id == id ==> Assign(c, id, q)[i] == c[i].(quantity := q)
    decreases |c|
  {
    if c != [] {
      AssignAt(c[1..], id, q);
      var r := Assign(c, id, q);
      assert forall i :: 1 <= i < |c| ==> r[i] == Assign(c[1..], id, q)[i - 1] && c[i] == c[1..][i - 1];
    }
  }

  function AddToCart(c: Cart, item: CartItem): Cart {
    if Find(c, item.id).Some? then Bump(c, item.id, item.quantity) else c + [item]
  }

  /** `cartReducer`. */
  function Reduce(c: Cart, action: CartAction): Cart {
    match action
    case AddItem(item) => AddToCart(c, item)
    case UpdateQuantity(id, q) => Assign(c, id, q)
    case RemoveItem(id) => Without(c, id)
    case ClearCart => InitialCart
    case Unrecognized => c
  }

  /** `totalItems`: the sum of the quantities. */
  function TotalItems(c: Cart): int {
    if c == [] then 0 else c[0].quantity + TotalItems(c[1..])
  }

  /** What one line contributes to `totalAmount`. */
  function LineAmount(item: CartItem): real {
    item.price * item.quantity as real
  }

  /** `totalAmount`: the sum of price times quantity. */
  function TotalAmount(c: Cart): real {
    if c == [] then 0.0 else LineAmount(c[0]) + TotalAmount(c[1..])
  }

  // ---------------------------------------------------------------------------
  // ADD_ITEM

  /** An id already in the cart: the matching line gains the payload quantity,
      every other line and the length stay as they were. */
  lemma AddExisting(c: Cart, item: CartItem)
    requires HasId(c, item.id)
    ensures |AddToCart(c, item)| == |c|
    ensures forall i :: 0 <= i < |c| && c[i].id != item.id ==> AddToCart(c, item)[i] == c[i]
    ensures forall i :: 0 <= i < |c| && c[i].id == item.id ==>
      AddToCart(c, item)[i] == c[i].(quantity := c[i].quantity + item.quantity)
  {
    BumpAt(c, item.id, item.quantity);
  }

  /** A new id: the payload is appended at the end and the length grows by one. */
  lemma AddNew(c: Cart, item: CartItem)
    requires !HasId(c, item.id)
    ensures AddToCart(c, item) == c + [item]
    ensures |AddToCart(c, item)| == |c| + 1
    ensures AddToCart(c, item)[|c|] == item
  {
  }

  // ---------------------------------------------------------------------------
  // UPDATE_QUANTITY, REMOVE_ITEM, CLEAR_CART and unknown actions

  /** The matching line's quantity is set exactly; order and length are kept. */
  lemma UpdateSetsQuantity(c: Cart, id: string, q: int)
    ensures |Reduce(c, UpdateQuantity(id, q))| == |c|
    ensures forall i :: 0 <= i < |c| ==> Reduce(c, UpdateQuantity(id, q))[i].id == c[i].id
    ensures forall i :: 0 <= i < |c| && c[i].id == id ==> Reduce(c, UpdateQuantity(id, q))[i].quantity == q
    ensures forall i :: 0 <= i < |c| && c[i].id != id ==> Reduce(c, UpdateQuantity(id, q))[i] == c[i]
    ensures !HasId(c, id) ==> Reduce(c, UpdateQuantity(id, q)) == c
  {
    var r := Reduce(c, UpdateQuantity(id, q));
    AssignAt(c, id, q);
    if !HasId(c, id) {
      assert forall i :: 0 <= i < |c| ==> r[i] == c[i];
    }
  }

  /** `a` is `b` with some elements dropped and the rest in their original order. */
  ghost predicate IsSubsequence(a: Cart, b: Cart)
    decreases |b|
  {
    a == [] || (b != [] && ((a[0] == b[0] && IsSubsequence(a[1..], b[1..])) || IsSubsequence(a, b[1..])))
  }

  lemma {:induction false} WithoutIsSubsequence(c: Cart, id: string)
    ensures IsSubsequence(Without(c, id), c)
    decreases |c|
  {
    if c != [] {
      WithoutIsSubsequence(c[1..], id);
      var rest := Without(c[1..], id);
      if c[0].id != id {
        var r := [c[0]] + rest;
        assert r[1..] == rest;
      }
    }
  }

  function CountId(c: Cart, id: string): nat {
    if c == [] then 0 else (if c[0].id == id then 1 else 0) + CountId(c[1..], id)
  }

  lemma {:induction false} WithoutLength(c: Cart, id: string)
    ensures |Without(c, id)| == |c| - CountId(c, id)
    decreases |c|
  {
    if c != [] {
      WithoutLength(c[1..], id);
    }
  }

  /** REMOVE_ITEM drops exactly the lines with that id and keeps every other line,
      in the original relative order. */
  lemma RemoveOnlyTarget(c: Cart, id: string)
    ensures forall i :: 0 <= i < |Reduce(c, RemoveItem(id))| ==> Reduce(c, RemoveItem(id))[i].id != id
    ensures forall x: CartItem :: x.id != id ==> multiset(Reduce(c, RemoveItem(id)))[x] == multiset(c)[x]
    ensures IsSubsequence(Reduce(c, RemoveItem(id)), c)
    ensures |Reduce(c, RemoveItem(id))| == |c| - CountId(c, id)
  {
    WithoutIsSubsequence(c, id);
    WithoutLength(c, id);
  }

  /** CLEAR_CART empties the cart; an action the reducer does not know leaves it alone. */
  lemma ClearAndUnknown(c: Cart)
    ensures Reduce(c, ClearCart) == [] && TotalItems(Reduce(c, ClearCart)) == 0
    ensures Reduce(c, Unrecognized) == c
  {
  }

  // ---------------------------------------------------------------------------
  // Unique ids

  lemma BumpKeepsIds(c: Cart, id: string, q: int)
    requires UniqueIds(c)
    ensures UniqueIds(Bump(c, id, q))
  {
    var r := Bump(c, id, q);
    BumpAt(c, id, q);
    assert forall i :: 0 <= i < |c| ==> r[i].id == c[i].id;
  }

  lemma AssignKeepsIds(c: Cart, id: string, q: int)
    requires UniqueIds(c)
    ensures UniqueIds(Assign(c, id, q))
  {
    var r := Assign(c, id, q);
    AssignAt(c, id, q);
    assert forall i :: 0 <= i < |c| ==> r[i].id == c[i].id;
  }

  lemma {:induction false} SubsequenceKeepsIds(a: Cart, b: Cart)
    requires IsSubsequence(a, b) && UniqueIds(b)
    ensures UniqueIds(a)
    decreases |b|
  {
    if a != [] {
      if a[0] == b[0] && IsSubsequence(a[1..], b[1..]) {
        SubsequenceKeepsIds(a[1..], b[1..]);
        SubsequenceMembers(a[1..], b[1..]);
        forall i, j | 0 <= i < j < |a|
          ensures a[i].id != a[j].id
        {
          if i == 0 {
            assert a[j] == a[1..][j - 1];
            var k :| 0 <= k < |b[1..]| && b[1..][k] == a[j];
            assert b[k + 1] == a[j];
          } else {
            assert a[i] == a[1..][i - 1] && a[j] == a[1..][j - 1];
          }
        }
      } else {
        SubsequenceKeepsIds(a, b[1..]);
      }
    }
  }

  lemma {:induction false} SubsequenceMembers(a: Cart, b: Cart)
    requires IsSubsequence(a, b)
    ensures forall i :: 0 <= i < |a| ==> exists k :: 0 <= k < |b| && b[k] == a[i]
    decreases |b|
  {
    if a != [] {
      if a[0] == b[0] && IsSubsequence(a[1..], b[1..]) {
        SubsequenceMembers(a[1..], b[1..]);
        forall i | 0 <= i < |a|
          ensures exists k :: 0 <= k < |b| && b[k] == a[i]
        {
          if i == 0 {
            assert b[0] == a[0];
          } else {
            assert a[i] == a[1..][i - 1];
            var k :| 0 <= k < |b[1..]| && b[1..][k] == a[i];
            assert b[k + 1] == a[i];
          }
        }
      } else {
        SubsequenceMembers(a, b[1..]);
        forall i | 0 <= i < |a|
          ensures exists k :: 0 <= k < |b| && b[k] == a[i]
        {
          var k :| 0 <= k < |b[1..]| && b[1..][k] == a[i];
          assert b[k + 1] == a[i];
        }
      }
    }
  }

  /** Every action keeps the product ids of the cart pairwise distinct. */
  lemma ReducePreservesUniqueIds(c: Cart, action: CartAction)
    requires UniqueIds(c)
    ensures UniqueIds(Reduce(c, action))
  {
    match action
    case AddItem(item) =>
      if Find(c, item.id).Some? {
        BumpKeepsIds(c, item.id, item.quantity);
      } else {
        var r := c + [item];
        assert forall i :: 0 <= i < |c| ==> r[i] == c[i];
      }
    case UpdateQuantity(id, q) => AssignKeepsIds(c, id, q);
    case RemoveItem(id) =>
      WithoutIsSubsequence(c, id);
      SubsequenceKeepsIds(Without(c, id), c);
    case ClearCart =>
    case Unrecognized =>
  }

  // ---------------------------------------------------------------------------
  // The cart as a finite map from id to line

  /** `find` on a cart split into its first line and the rest. */
  lemma FindCons(h: CartItem, rest: Cart, x: string)
    ensures Find([h] + rest, x) == if h.id == x then Some(h) else Find(rest, x)
  {
    assert ([h] + rest)[1..] == rest;
  }

  lemma {:induction false} BumpFind(c: Cart, id: string, q: int, x: string)
    ensures Find(Bump(c, id, q), x) ==
      (if x == id && Find(c, x).Some? then Some(MoreOf(Find(c, x).value, q)) else Find(c, x))
    decreases |c|
  {
    if c != [] {
      var h := if c[0].id == id then MoreOf(c[0], q) else c[0];
      assert Bump(c, id, q) == [h] + Bump(c[1..], id, q);
      FindCons(h, Bump(c[1..], id, q), x);
      FindCons(c[0], c[1..], x);
      assert [c[0]] + c[1..] == c;
      BumpFind(c[1..], id, q, x);
    }
  }

  lemma {:induction false} AssignFind(c: Cart, id: string, q: int, x: string)
    ensures Find(Assign(c, id, q), x) ==
      (if x == id && Find(c, x).Some? then Some(Find(c, x).value.(quantity := q)) else Find(c, x))
    decreases |c|
  {
    if c != [] {
      var h := if c[0].id == id then c[0].(quantity := q) else c[0];
      assert Assign(c, id, q) == [h] + Assign(c[1..], id, q);
      FindCons(h, Assign(c[1..], id, q), x);
      FindCons(c[0], c[1..], x);
      assert [c[0]] + c[1..] == c;
      AssignFind(c[1..], id, q, x);
    }
  }

  lemma {:induction false} WithoutFind(c: Cart, id: string, x: string)
    ensures Find(Without(c, id), x) == (if x == id then None else Find(c, x))
    decreases |c|
  {
    if c != [] {
      WithoutFind(c[1..], id, x);
      if c[0].id != id {
        assert ([c[0]] + Without(c[1..], id))[1..] == Without(c[1..], id);
      }
    }
  }

  lemma {:induction false} AppendFind(c: Cart, item: CartItem, x: string)
    requires !HasId(c, item.id)
    ensures Find(c + [item], x) == (if x == item.id then Some(item) else Find(c, x))
    decreases |c|
  {
    if c != [] {
      assert (c + [item])[1..] == c[1..] + [item];
      assert forall i :: 0 <= i < |c[1..]| ==> c[1..][i] == c[i + 1];
      AppendFind(c[1..], item, x);
    } else {
      assert [] + [item] == [item];
    }
  }

  /** The map view of each action, the line the cart shows for id `x` afterwards:
      ADD_ITEM merges into or creates the entry for the payload id, UPDATE_QUANTITY
      rewrites one entry's quantity, REMOVE_ITEM deletes one entry, CLEAR_CART
      deletes all; every other id keeps its line. */
  lemma ReduceFind(c: Cart, action: CartAction, x: string)
    ensures action.AddItem? ==>
      Find(Reduce(c, action), x) ==
        (if x != action.payload.id then Find(c, x)
         else if Find(c, x).Some? then Some(MoreOf(Find(c, x).value, action.payload.quantity))
         else Some(action.payload))
    ensures action.UpdateQuantity? ==>
      Find(Reduce(c, action), x) ==
        (if x == action.id && Find(c, x).Some? then Some(Find(c, x).value.(quantity := action.quantity)) else Find(c, x))
    ensures action.RemoveItem? ==> Find(Reduce(c, action), x) == (if x == action.id then None else Find(c, x))
    ensures action.ClearCart? ==> Find(Reduce(c, action), x) == None
    ensures action.Unrecognized? ==> Find(Reduce(c, action), x) == Find(c, x)
  {
    match action
    case AddItem(item) =>
      if Find(c, item.id).Some? {
        BumpFind(c, item.id, item.quantity, x);
      } else {
        AppendFind(c, item, x);
      }
    case UpdateQuantity(id, q) => AssignFind(c, id, q, x);
    case RemoveItem(id) => WithoutFind(c, id, x);
    case ClearCart =>
    case Unrecognized =>
  }

  // ---------------------------------------------------------------------------
  // Totals

  lemma {:induction false} TotalsAppend(a: Cart, b: Cart)
    ensures TotalItems(a + b) == TotalItems(a) + TotalItems(b)
    ensures TotalAmount(a + b) == TotalAmount(a) + TotalAmount(b)
    decreases |a|
  {
    if a != [] {
      assert (a + b)[1..] == a[1..] + b;
      TotalsAppend(a[1..], b);
    } else {
      assert a + b == b;
    }
  }

  /** Merging `q` into every line with `id` adds `q` once per such line. */
  lemma {:induction false} BumpItems(c: Cart, id: string, q: int)
    ensures TotalItems(Bump(c, id, q)) == TotalItems(c) + q * CountId(c, id)
    decreases |c|
  {
    if c != [] {
      BumpItems(c[1..], id, q);
      var r := Bump(c, id, q);
      assert r[1..] == Bump(c[1..], id, q);
      if c[0].id == id {
        assert q * (1 + CountId(c[1..], id)) == q + q * CountId(c[1..], id);
      }
    }
  }

  /** ... and its amount by `q` times each such line's unit price. */
  lemma {:induction false} BumpAmount(c: Cart, id: string, q: int)
    ensures TotalAmount(Bump(c, id, q)) == TotalAmount(c) + q as real * PriceSum(c, id)
    decreases |c|
  {
    if c != [] {
      BumpAmount(c[1..], id, q);
      var r := Bump(c, id, q);
      var rest := Bump(c[1..], id, q);
      assert r[1..] == rest;
      if c[0].id == id {
        MoreOfAmount(c[0], q);
        Distribute(q as real, c[0].price, PriceSum(c[1..], id));
      } else {
        assert r[0] == c[0];
      }
    }
  }

  /** A line with `q` more units is worth `q` more unit prices. */
  lemma MoreOfAmount(item: CartItem, q: int)
    ensures LineAmount(MoreOf(item, q)) == LineAmount(item) + q as real * item.price
  {
    Distribute(item.price, item.quantity as real, q as real);
  }

  lemma TotalsSingleton(item: CartItem)
    ensures TotalItems([item]) == item.quantity
    ensures TotalAmount([item]) == item.price * item.quantity as real
  {
    assert [item][1..] == [];
  }

  lemma Distribute(a: real, b: real, d: real)
    ensures a * (b + d) == a * b + a * d
    ensures (b + d) * a == b * a + d * a
  {
  }

  /** The sum of the unit prices of the lines with `id`. */
  function PriceSum(c: Cart, id: string): real {
    if c == [] then 0.0 else (if c[0].id == id then c[0].price else 0.0) + PriceSum(c[1..], id)
  }

  lemma {:induction false} UniqueCount(c: Cart, id: string)
    requires UniqueIds(c) && Find(c, id).Some?
    ensures CountId(c, id) == 1
    ensures PriceSum(c, id) == Find(c, id).value.price
    decreases |c|
  {
    assert UniqueIds(c[1..]) by {
      forall i, j | 0 <= i < j < |c[1..]|
        ensures c[1..][i].id != c[1..][j].id
      {
        assert c[1..][i] == c[i + 1] && c[1..][j] == c[j + 1];
      }
    }
    if c[0].id == id {
      AbsentCount(c[1..], id);
    } else {
      UniqueCount(c[1..], id);
    }
  }

  lemma {:induction false} AbsentCount(c: Cart, id: string)
    requires forall i :: 0 <= i < |c| ==> c[i].id != id
    ensures CountId(c, id) == 0 && PriceSum(c, id) == 0.0
    decreases |c|
  {
    if c != [] {
      AbsentCount(c[1..], id);
    }
  }

  /** Multiplying equal reals by the same factor, in either order. */
  lemma Rescale(a: real, x: real, y: real)
    requires x == y
    ensures a * x == y * a
  {
  }

  /** Bumping the one line with `id` adds exactly `q` items. */
  lemma BumpUniqueItems(c: Cart, id: string, q: int)
    requires UniqueIds(c) && HasId(c, id)
    ensures TotalItems(Bump(c, id, q)) == TotalItems(c) + q
  {
    BumpItems(c, id, q);
    UniqueCount(c, id);
  }

  /** Bumping the one line with `id` adds `q` times that line's unit price. */
  lemma BumpUniqueAmount(c: Cart, id: string, q: int)
    requires UniqueIds(c) && HasId(c, id)
    ensures TotalAmount(Bump(c, id, q)) == TotalAmount(c) + Find(c, id).value.price * q as real
  {
    BumpAmount(c, id, q);
    UniqueCount(c, id);
    Rescale(q as real, PriceSum(c, id), Find(c, id).value.price);
  }

  /** ADD_ITEM on an id already in the cart: the item count grows by the added
      quantity and the amount by that quantity at the stored line's price. */
  lemma AddExistingTotals(c: Cart, item: CartItem, line: CartItem)
    requires UniqueIds(c) && Find(c, item.id) == Some(line)
    ensures TotalItems(Reduce(c, AddItem(item))) == TotalItems(c) + item.quantity
    ensures TotalAmount(Reduce(c, AddItem(item))) == TotalAmount(c) + line.price * item.quantity as real
  {
    AddIsBump(c, item);
    BumpUniqueItems(c, item.id, item.quantity);
    BumpUniqueAmount(c, item.id, item.quantity);
  }

  /** ADD_ITEM on an id already in the cart is the bump of that line. */
  lemma AddIsBump(c: Cart, item: CartItem)
    requires HasId(c, item.id)
    ensures Reduce(c, AddItem(item)) == Bump(c, item.id, item.quantity)
    ensures TotalItems(Reduce(c, AddItem(item))) == TotalItems(Bump(c, item.id, item.quantity))
    ensures TotalAmount(Reduce(c, AddItem(item))) == TotalAmount(Bump(c, item.id, item.quantity))
  {
  }

  /** ADD_ITEM on a new id: both totals grow by the appended line. */
  lemma AddNewTotals(c: Cart, item: CartItem)
    requires !HasId(c, item.id)
    ensures TotalItems(Reduce(c, AddItem(item))) == TotalItems(c) + item.quantity
    ensures TotalAmount(Reduce(c, AddItem(item))) == TotalAmount(c) + item.price * item.quantity as real
  {
    assert Find(c, item.id).None?;
    assert Reduce(c, AddItem(item)) == c + [item];
    TotalsAppend(c, [item]);
    TotalsSingleton(item);
  }
}
