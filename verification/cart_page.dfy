/** `src/pages/CartPage.tsx`: the "featured collection" shown under the cart and
    the quantity each −, typed-input and + control asks the cart reducer for. */
module CartPage {
  import opened Wrappers
  import opened Strings
  import opened Catalog
  import opened CartContext

  /** How many featured products the page shows at most. */
  const FeaturedLimit := 4

  /** A product may be featured when it is not already in the cart and is not
      marked out of stock. */
  predicate Eligible(p: Product, cart: Cart) {
    !HasId(cart, p.id) && Available(p)
  }

  /** `products.filter(p => !cartProductIds.includes(p.id) && p.inStock !== false)`. */
  function EligibleProducts(products: seq<Product>, cart: Cart): (r: seq<Product>)
    ensures |r| <= |products|
    ensures forall i :: 0 <= i < |r| ==> Eligible(r[i], cart)
    ensures forall p :: p in products && Eligible(p, cart) ==> p in r
    ensures forall p :: p in r ==> p in products
  {
    if products == [] then []
    else
      var rest := EligibleProducts(products[1..], cart);
      assert forall p :: p in products[1..] ==> p in products;
      assert forall p :: p in products ==> p == products[0] || p in products[1..];
      if Eligible(products[0], cart) then [products[0]] + rest else rest
  }

  /** The filter keeps catalogue order: filtering a concatenation concatenates the
      filtered parts. */
  lemma {:induction false} EligibleAppend(a: seq<Product>, b: seq<Product>, cart: Cart)
    ensures EligibleProducts(a + b, cart) == EligibleProducts(a, cart) + EligibleProducts(b, cart)
    decreases |a|
  {
    if a == [] {
      assert a + b == b;
    } else {
      assert (a + b)[0] == a[0];
      assert (a + b)[1..] == a[1..] + b;
      EligibleAppend(a[1..], b, cart);
    }
  }

  /** `.slice(0, 4)` of the eligible products. */
  function Featured(products: seq<Product>, cart: Cart): (r: seq<Product>)
    ensures |r| <= FeaturedLimit
    ensures r <= EligibleProducts(products, cart)
    ensures |r| == if |EligibleProducts(products, cart)| < FeaturedLimit
                   then |EligibleProducts(products, cart)| else FeaturedLimit
  {
    var e := EligibleProducts(products, cart);
    if |e| <= FeaturedLimit then e else e[..FeaturedLimit]
  }

  /** No featured product is in the cart, and none is marked out of stock. */
  lemma FeaturedExcluded(products: seq<Product>, cart: Cart, p: Product)
    requires p in Featured(products, cart)
    ensures p in products
    ensures !HasId(cart, p.id)
    ensures p.inStock != Some(false)
  {
    var e := EligibleProducts(products, cart);
    var r := Featured(products, cart);
    var i :| 0 <= i < |r| && r[i] == p;
    assert r[i] == e[i];
  }

  /** The − button: `Math.max(1, item.quantity - 1)`. */
  function DecrementRequest(quantity: int): (r: int)
    ensures r >= 1
    ensures quantity >= 2 ==> r == quantity - 1
    ensures quantity <= 2 ==> r == 1
  {
    if quantity - 1 > 1 then quantity - 1 else 1
  }

  /** The + button: `item.quantity + 1`. */
  function IncrementRequest(quantity: int): (r: int)
    ensures r > quantity
  {
    quantity + 1
  }

  /** − undoes + for any quantity the cart can show. */
  lemma DecrementUndoesIncrement(quantity: int)
    requires quantity >= 1
    ensures DecrementRequest(IncrementRequest(quantity)) == quantity
  {
  }

  /** The typed input: `Math.max(1, parseInt(value) || 1)`; `NaN` and `0` are falsy. */
  function InputRequest(text: string): (r: int)
    ensures r >= 1
    ensures ParseInt(text).Some? && ParseInt(text).value >= 1 ==> r == ParseInt(text).value
    ensures ParseInt(text).None? || ParseInt(text).value < 1 ==> r == 1
  {
    var parsed := ParseInt(text);
    var v := if parsed.Some? && parsed.value != 0 then parsed.value else 1;
    if v > 1 then v else 1
  }

  /** Typing the decimal form of a positive count requests exactly that count. */
  lemma InputOfCount(n: nat)
    requires n >= 1
    ensures InputRequest(NatToString(n)) == n
  {
    ParseIntOfNatToString(n);
  }

  /** Typing a negative number, or zero, requests 1. */
  lemma InputOfNonPositive(n: nat)
    ensures InputRequest("-" + NatToString(n)) == 1
    ensures InputRequest(NatToString(0)) == 1
  {
    ParseIntOfNegative(n);
    ParseIntOfNatToString(0);
  }

  /** The controls shown on one cart line; each carries the line as displayed. */
  datatype LineControl =
    | Minus(line: CartItem)
    | Typed(line: CartItem, text: string)
    | Plus(line: CartItem)
    | Trash(line: CartItem)

  /** The reducer action a control dispatches (`updateQuantity` or `removeFromCart`). */
  function ControlAction(ctl: LineControl): (a: CartAction)
    ensures ctl.Trash? <==> a.RemoveItem?
    ensures a.UpdateQuantity? ==> a.id == ctl.line.id
    ensures (ctl.Minus? || ctl.Typed?) ==> a.UpdateQuantity? && a.quantity >= 1
    ensures ctl.Plus? ==> a == UpdateQuantity(ctl.line.id, ctl.line.quantity + 1)
    ensures a.RemoveItem? ==> a.id == ctl.line.id
  {
    match ctl
    case Minus(line) => UpdateQuantity(line.id, DecrementRequest(line.quantity))
    case Typed(line, text) => UpdateQuantity(line.id, InputRequest(text))
    case Plus(line) => UpdateQuantity(line.id, IncrementRequest(line.quantity))
    case Trash(line) => RemoveItem(line.id)
  }

  /** Every line holds at least one unit. */
  ghost predicate AllPositive(c: Cart) {
    forall i :: 0 <= i < |c| ==> c[i].quantity >= 1
  }

  /** Using the controls of a displayed line never brings any line below one unit. */
  lemma ControlsKeepPositive(c: Cart, ctl: LineControl)
    requires AllPositive(c) && ctl.line in c
    ensures AllPositive(Reduce(c, ControlAction(ctl)))
  {
    var a := ControlAction(ctl);
    match a
    case UpdateQuantity(id, q) =>
      AssignAt(c, id, q);
    case RemoveItem(id) =>
      var r := Without(c, id);
      forall i | 0 <= i < |r|
        ensures r[i].quantity >= 1
      {
        assert r[i] in multiset(r);
        assert r[i] in multiset(c);
      }
    case _ =>
  }
}
