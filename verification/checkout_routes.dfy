/** `backend/src/checkoutRoutes.js`: when Stripe counts as configured, the
    allowed shipping countries read from `STRIPE_ALLOWED_COUNTRIES`, how a cart
    item becomes a Checkout line item and how the customer email is normalised,
    and the guard order of the three routes. Environment variables are
    parameters, and so are the Stripe calls, each standing for the answer Stripe
    gives (`None` when it throws). */
module CheckoutRoutes {
  import opened Wrappers
  import opened Strings
  import Http
  import opened Countries

  /** `isPlaceholderKey`: a missing or empty key, or one whose trimmed text holds
      `your_key_here` (the two full sample keys hold it too). */
  function IsPlaceholderKey(key: Option<string>): (r: bool)
    ensures !Truthy(key) ==> r
    ensures Truthy(key) ==> (r <==> Contains(Trim(key.value), "your_key_here"))
  {
    if !Truthy(key) then true
    else
      var v := Trim(key.value);
      SampleKeysContainMarker(v);
      Contains(v, "your_key_here") || v == "sk_test_your_key_here" || v == "sk_live_your_key_here"
  }

  /** Both sample keys hold the marker at position 8. */
  lemma SampleKeysContainMarker(v: string)
    ensures v == "sk_test_your_key_here" || v == "sk_live_your_key_here" ==> Contains(v, "your_key_here")
  {
    if v == "sk_test_your_key_here" {
      MarkerAt8(v, "sk_test_");
    } else if v == "sk_live_your_key_here" {
      MarkerAt8(v, "sk_live_");
    }
  }

  lemma MarkerAt8(v: string, prefix: string)
    requires |prefix| == 8 && v == prefix + "your_key_here"
    ensures Contains(v, "your_key_here")
  {
    assert Occurs(v, "your_key_here", 8);
  }

  /** A Stripe client is created only for a set key that is not a placeholder. */
  predicate Configured(secret: Option<string>) {
    Truthy(secret) && !IsPlaceholderKey(secret)
  }

  /** One entry of a comma list, trimmed and upper-cased. */
  function Entry(part: string): (e: string)
    ensures IsTrimmed(e) && NoLowerAscii(e)
  {
    UpperKeepsTrimmed(Trim(part));
    ToUpper(Trim(part))
  }

  /** `.filter(Boolean)` on strings: the non-empty ones, in order. */
  function DropEmpty(list: seq<string>): (r: seq<string>)
    ensures forall i :: 0 <= i < |r| ==> |r[i]| > 0 && r[i] in list
    ensures (forall i :: 0 <= i < |list| ==> |list[i]| > 0) ==> r == list
  {
    if list == [] then []
    else
      var rest := DropEmpty(list[1..]);
      assert forall x :: x in list[1..] ==> x in list;
      if |list[0]| == 0 then rest
      else
        assert [list[0]] + list[1..] == list;
        [list[0]] + rest
  }

  /** `.map((c) => c.trim().toUpperCase()).filter(Boolean)`. */
  function Entries(parts: seq<string>): (r: seq<string>)
    ensures forall i :: 0 <= i < |r| ==> |r[i]| > 0 && IsTrimmed(r[i]) && NoLowerAscii(r[i])
    ensures forall i :: 0 <= i < |r| ==> r[i] in EntryList(parts)
  {
    var m := EntryList(parts);
    var r := DropEmpty(m);
    forall i | 0 <= i < |r|
      ensures IsTrimmed(r[i]) && NoLowerAscii(r[i])
    {
      var j :| 0 <= j < |m| && m[j] == r[i];
    }
    r
  }

  /** `.map((c) => c.trim().toUpperCase())`. */
  function EntryList(parts: seq<string>): (m: seq<string>)
    ensures |m| == |parts|
    ensures forall j :: 0 <= j < |parts| ==> m[j] == Entry(parts[j])
  {
    seq(|parts|, j requires 0 <= j < |parts| => Entry(parts[j]))
  }

  /** A character that is not a letter and not in `part` is not in its entry. */
  lemma EntryFree(part: string, c: char)
    requires c !in part && !IsLowerAscii(c) && !IsUpperAscii(c)
    ensures c !in Entry(part)
  {
    var t := Trim(part);
    assert c !in t by {
      TrimPadded(part);
      var k :| Padded(part, t, k);
      assert forall j :: 0 <= j < |t| ==> t[j] == part[k + j];
    }
    UpperFree(t, c);
  }

  /** Upper-casing brings in no character that is not a letter. */
  lemma UpperFree(t: string, c: char)
    requires c !in t && !IsUpperAscii(c)
    ensures c !in ToUpper(t)
  {
    var e := ToUpper(t);
    forall i | 0 <= i < |e|
      ensures e[i] != c
    {
      if !IsLowerAscii(t[i]) {
        assert e[i] == t[i];
      }
    }
  }

  /** The entries of a normalised setting that is neither `ALL` nor `*`: no
      entry is empty, padded, lower-case or holds a comma. */
  function ListedCountries(value: string): (r: seq<string>)
    ensures forall i :: 0 <= i < |r| ==> |r[i]| > 0 && IsTrimmed(r[i]) && NoLowerAscii(r[i]) && ',' !in r[i]
  {
    var parts := Split(value, ',');
    EntriesFree(parts, ',');
    Entries(parts)
  }

  /** A character that is not a letter and not in any part is in no entry. */
  lemma EntriesFree(parts: seq<string>, c: char)
    requires forall j :: 0 <= j < |parts| ==> c !in parts[j]
    requires !IsLowerAscii(c) && !IsUpperAscii(c)
    ensures forall i :: 0 <= i < |Entries(parts)| ==> c !in Entries(parts)[i]
  {
    var m := EntryList(parts);
    forall j | 0 <= j < |m|
      ensures c !in m[j]
    {
      EntryFree(parts[j], c);
    }
    assert forall x :: x in m ==> c !in x;
  }

  /** The setting trimmed and upper-cased, or `ALL` when it is unset or empty. */
  function SettingValue(setting: Option<string>): (v: string)
    ensures !Truthy(setting) ==> v == "ALL"
    ensures IsTrimmed(v) && NoLowerAscii(v)
  {
    if Truthy(setting) then
      var t := Trim(setting.value);
      UpperKeepsTrimmed(t);
      ToUpper(t)
    else "ALL"
  }

  /** Which countries a setting allows: all of them, or only those listed. */
  datatype Shipping = Everywhere | Only(codes: seq<string>)

  /** How a setting is read: unset, empty, `ALL` or `*` (after trimming and
      upper-casing) allow every country, anything else lists entries none of
      which is empty, padded, lower-case or holds a comma. */
  function ShippingChoice(setting: Option<string>): (c: Shipping)
    ensures !Truthy(setting) ==> c == Everywhere
    ensures c.Everywhere? <==> SettingValue(setting) in {"ALL", "*"}
    ensures c.Only? ==>
      forall i :: 0 <= i < |c.codes| ==>
        |c.codes[i]| > 0 && IsTrimmed(c.codes[i]) && NoLowerAscii(c.codes[i]) && ',' !in c.codes[i]
  {
    var value := SettingValue(setting);
    if value == "ALL" || value == "*" then Everywhere
    else Only(ListedCountries(value))
  }

  /** The allowed shipping countries handed to the payment provider. */
  function AllowedCountries(setting: Option<string>): (r: seq<string>)
    ensures ShippingChoice(setting).Everywhere? ==> r == AllCountries
    ensures ShippingChoice(setting).Only? ==> r == ShippingChoice(setting).codes
  {
    match ShippingChoice(setting)
    case Everywhere => AllCountries
    case Only(codes) => codes
  }

  /** A two-letter code is its own entry. */
  lemma EntryOfCode(code: string)
    requires IsAlpha2(code)
    ensures Entry(code) == code
  {
    assert NoLowerAscii(code) && IsTrimmed(code);
    UpperOfNoLower(code);
    TrimTrimmed(code);
  }

  /** Entries already in normal form are kept as they are. */
  lemma EntriesOfCodes(codes: seq<string>)
    requires forall i :: 0 <= i < |codes| ==> IsAlpha2(codes[i])
    ensures Entries(codes) == codes
  {
    var mapped := EntryList(codes);
    assert mapped == codes by {
      forall j | 0 <= j < |codes|
        ensures mapped[j] == codes[j]
      {
        EntryOfCode(codes[j]);
      }
    }
    assert forall i :: 0 <= i < |codes| ==> |codes[i]| > 0;
  }

  /** `Join` of two-letter codes: three characters per code but the last, no
      space at either end, no small letter. */
  lemma {:induction false} JoinedCodes(codes: seq<string>)
    requires |codes| >= 1
    requires forall i :: 0 <= i < |codes| ==> IsAlpha2(codes[i])
    ensures |Join(codes, ',')| == 3 * |codes| - 1
    ensures IsUpperAscii(Join(codes, ',')[0]) && IsUpperAscii(Join(codes, ',')[|Join(codes, ',')| - 1])
    ensures IsTrimmed(Join(codes, ',')) && NoLowerAscii(Join(codes, ','))
    decreases |codes|
  {
    var s := Join(codes, ',');
    if |codes| > 1 {
      JoinedCodes(codes[1..]);
      var rest := Join(codes[1..], ',');
      assert s == codes[0] + [','] + rest;
      assert s[|s| - 1] == rest[|rest| - 1];
      forall k | 0 <= k < |s|
        ensures !IsLowerAscii(s[k])
      {
        if k >= 3 {
          assert s[k] == rest[k - 3];
        }
      }
    }
  }

  /** A non-empty setting already in normal form that is neither `ALL` nor `*`
      is read as its list of entries. */
  lemma ReadBack(s: string, codes: seq<string>)
    requires SettingValue(Some(s)) == s && s != "ALL" && s != "*"
    requires ListedCountries(s) == codes
    ensures ShippingChoice(Some(s)) == Only(codes)
  {
  }

  /** No two-letter code holds a comma. */
  lemma CodesCommaFree(codes: seq<string>)
    requires forall i :: 0 <= i < |codes| ==> IsAlpha2(codes[i])
    ensures forall i :: 0 <= i < |codes| ==> ',' !in codes[i]
  {
    forall i | 0 <= i < |codes|
      ensures ',' !in codes[i]
    {
      assert IsAlpha2(codes[i]);
    }
  }

  /** The entries of a comma list of two-letter codes are the codes. */
  lemma ListedCodes(codes: seq<string>)
    requires |codes| >= 1
    requires forall i :: 0 <= i < |codes| ==> IsAlpha2(codes[i])
    ensures ListedCountries(Join(codes, ',')) == codes
  {
    CodesCommaFree(codes);
    SplitJoin(codes, ',');
    EntriesOfCodes(codes);
  }

  /** The comma list of two-letter codes is non-empty, already trimmed and
      upper-case, and neither `ALL` nor `*`. */
  lemma NormalCodes(codes: seq<string>)
    requires |codes| >= 1
    requires forall i :: 0 <= i < |codes| ==> IsAlpha2(codes[i])
    ensures var s := Join(codes, ','); SettingValue(Some(s)) == s && s != "ALL" && s != "*"
  {
    var s := Join(codes, ',');
    JoinedCodes(codes);
    assert |s| > 0 && s != "ALL" && s != "*" by {
      var n := |codes|;
      assert |s| == 3 * n - 1;
      if n == 1 { assert |s| == 2; } else { assert |s| >= 5; }
    }
    UpperOfNoLower(s);
    TrimTrimmed(s);
  }

  /** A setting written as a comma list of two-letter codes is read back as
      exactly that list, in order. */
  lemma CodeListRoundTrip(codes: seq<string>)
    requires |codes| >= 1
    requires forall i :: 0 <= i < |codes| ==> IsAlpha2(codes[i])
    ensures ShippingChoice(Some(Join(codes, ','))) == Only(codes)
  {
    NormalCodes(codes);
    ListedCodes(codes);
    ReadBack(Join(codes, ','), codes);
  }

  /** `item.quantity || 1`: a missing or zero quantity is 1. */
  function Quantity(q: Option<int>): (r: int)
    ensures r != 0
    ensures q.Some? && q.value != 0 ==> r == q.value
  {
    if q.Some? && q.value != 0 then q.value else 1
  }

  /** `Math.round(price * 100)`, with the product taken exactly: the nearest
      integer, halves rounding up. */
  function Cents(price: real): (r: int)
    ensures price * 100.0 - 0.5 < r as real <= price * 100.0 + 0.5
  {
    (price * 100.0 + 0.5).Floor
  }

  /** `customerEmail` when it is a string with something besides spaces:
      trimmed and lower-cased; otherwise none. */
  function CustomerEmail(email: Option<string>): (r: Option<string>)
    ensures r.Some? <==> email.Some? && Trim(email.value) != ""
    ensures r.Some? ==> r.value == TrimLower(email.value) && r.value != ""
  {
    if email.Some? && Trim(email.value) != "" then Some(TrimLower(email.value)) else None
  }

  /** Normalising the normalised email changes nothing. */
  lemma CustomerEmailIdempotent(email: Option<string>)
    ensures CustomerEmail(CustomerEmail(email)) == CustomerEmail(email)
  {
    if email.Some? && Trim(email.value) != "" {
      var e := TrimLower(email.value);
      TrimLowerIdempotent(email.value);
      TrimTrimmed(e);
    }
  }

  /** A cart line as the client sends it. */
  datatype CartLine = CartLine(name: Option<string>, price: real, quantity: Option<int>)

  /** A Checkout line item. */
  datatype LineItem = LineItem(currency: Option<string>, name: Option<string>, unitAmount: int, quantity: int)

  /** `items.map(...)` into Checkout line items, one per cart line, in order. */
  function LineItems(items: seq<CartLine>, currency: Option<string>): (r: seq<LineItem>)
    ensures |r| == |items|
    ensures forall i :: 0 <= i < |items| ==>
      r[i] == LineItem(currency, items[i].name, Cents(items[i].price), Quantity(items[i].quantity))
  {
    seq(|items|, i requires 0 <= i < |items| =>
      LineItem(currency, items[i].name, Cents(items[i].price), Quantity(items[i].quantity)))
  }

  /** The parameters handed to `stripe.checkout.sessions.create`. */
  datatype SessionRequest = SessionRequest(lineItems: seq<LineItem>, customerEmail: Option<string>,
                                           allowedCountries: seq<string>)

  /** What Stripe says about a session. */
  datatype SessionInfo = SessionInfo(id: string, status: Option<string>, paymentStatus: Option<string>,
                                     amountTotal: Option<int>, currency: Option<string>,
                                     detailsEmail: Option<string>, customerEmail: Option<string>)

  /** The request body of `create-session`. */
  datatype SessionBody = SessionBody(items: Option<seq<CartLine>>, currency: Field<string>,
                                     customerEmail: Option<string>)

  /** The routes' JSON answers. */
  datatype Reply =
    | Error(status: int, message: string)
    | SessionStarted(request: SessionRequest, url: string, id: string)
    | SessionFound(info: SessionInfo, email: Option<string>)
    | IntentCreated(clientSecret: string)

  const NotConfigured := "Checkout is not configured. Please try again later."

  /** The HTTP status of a reply. */
  function StatusOf(r: Reply): int {
    if r.Error? then r.status else Http.OK
  }

  /** `POST /create-session`: 500 when Stripe is not configured, whatever the
      body; then 400 for a missing or empty item list; then the session Stripe
      creates from the normalised request, or 500 when it throws. */
  function CreateSession(secret: Option<string>, countrySetting: Option<string>, body: SessionBody,
                         create: SessionRequest -> Option<(string, string)>): (r: Reply)
    ensures !Configured(secret) ==> r == Error(Http.ServerError, NotConfigured)
    ensures Configured(secret) && !(body.items.Some? && |body.items.value| > 0) ==>
      r == Error(Http.BadRequest, "No items to checkout")
    ensures r.SessionStarted? ==>
      && Configured(secret) && body.items.Some?
      && r.request.lineItems == LineItems(body.items.value, WithDefault(body.currency, "kes"))
      && r.request.customerEmail == CustomerEmail(body.customerEmail)
      && r.request.allowedCountries == AllowedCountries(countrySetting)
      && create(r.request) == Some((r.url, r.id))
    ensures Configured(secret) && body.items.Some? && |body.items.value| > 0 ==>
      (r.SessionStarted? <==> create(SessionRequest(LineItems(body.items.value, WithDefault(body.currency, "kes")),
                                                    CustomerEmail(body.customerEmail),
                                                    AllowedCountries(countrySetting))).Some?)
  {
    if !Configured(secret) then Error(Http.ServerError, NotConfigured)
    else if !(body.items.Some? && |body.items.value| > 0) then Error(Http.BadRequest, "No items to checkout")
    else
      var request := SessionRequest(LineItems(body.items.value, WithDefault(body.currency, "kes")),
                                    CustomerEmail(body.customerEmail), AllowedCountries(countrySetting));
      match create(request)
      case Some((url, id)) => SessionStarted(request, url, id)
      case None => Error(Http.ServerError, "Failed to start checkout")
  }

  /** `GET /session/:id`: 500 when not configured, 400 for an empty id, else what
      Stripe reports, with the email from the customer details first, then the
      session's own. */
  function GetSession(secret: Option<string>, id: string, retrieve: string -> Option<SessionInfo>): (r: Reply)
    ensures !Configured(secret) ==> r == Error(Http.ServerError, NotConfigured)
    ensures Configured(secret) && id == "" ==> r == Error(Http.BadRequest, "Missing session id")
    ensures r.SessionFound? ==>
      && retrieve(id) == Some(r.info)
      && (r.email.Some? <==> Truthy(r.info.detailsEmail) || Truthy(r.info.customerEmail))
      && (Truthy(r.info.detailsEmail) ==> r.email == r.info.detailsEmail)
      && (!Truthy(r.info.detailsEmail) ==> r.email == OrNull(r.info.customerEmail))
  {
    if !Configured(secret) then Error(Http.ServerError, NotConfigured)
    else if id == "" then Error(Http.BadRequest, "Missing session id")
    else
      match retrieve(id)
      case Some(info) =>
        SessionFound(info, if Truthy(info.detailsEmail) then info.detailsEmail else OrNull(info.customerEmail))
      case None => Error(Http.ServerError, "Failed to retrieve checkout session")
  }

  /** The `amount` field: not a number at all, `NaN` or an infinity, or a finite number. */
  datatype Amount = NotANumber | NonFinite | Finite(value: real)

  /** `POST /create-payment-intent`: 500 when not configured; 400 unless the
      amount is a finite number above zero; else the client secret Stripe
      returns for that amount and currency. */
  function CreatePaymentIntent(secret: Option<string>, amount: Amount, currency: Field<string>,
                               create: (real, Option<string>) -> Option<string>): (r: Reply)
    ensures !Configured(secret) ==> r == Error(Http.ServerError, NotConfigured)
    ensures Configured(secret) && !(amount.Finite? && amount.value > 0.0) ==>
      r == Error(Http.BadRequest, "Invalid amount for payment intent")
    ensures r.IntentCreated? ==>
      amount.Finite? && amount.value > 0.0 && create(amount.value, WithDefault(currency, "kes")) == Some(r.clientSecret)
  {
    if !Configured(secret) then Error(Http.ServerError, NotConfigured)
    else if !(amount.Finite? && amount.value > 0.0) then Error(Http.BadRequest, "Invalid amount for payment intent")
    else
      match create(amount.value, WithDefault(currency, "kes"))
      case Some(clientSecret) => IntentCreated(clientSecret)
      case None => Error(Http.ServerError, "Failed to start payment")
  }

  /** A placeholder key disables all three routes, whatever the request. */
  lemma PlaceholderDisablesCheckout(secret: Option<string>, countrySetting: Option<string>, body: SessionBody,
                                    id: string, amount: Amount, currency: Field<string>,
                                    create: SessionRequest -> Option<(string, string)>,
                                    retrieve: string -> Option<SessionInfo>,
                                    intent: (real, Option<string>) -> Option<string>)
    requires Truthy(secret) && Contains(secret.value, "your_key_here")
    ensures StatusOf(CreateSession(secret, countrySetting, body, create)) == Http.ServerError
    ensures StatusOf(GetSession(secret, id, retrieve)) == Http.ServerError
    ensures StatusOf(CreatePaymentIntent(secret, amount, currency, intent)) == Http.ServerError
  {
    ContainsTrim(secret.value, "your_key_here");
  }
}
