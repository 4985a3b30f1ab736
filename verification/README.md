# nuthu storefront core in Dafny

A model of the decision logic of the nuthu e-commerce storefront: an Express
backend over MySQL and a React client. Each core source file is one Dafny
module, and each route, reducer or handler is a pure function over immutable
state:

- the client cart reducer and its totals (`CartContext`);
- the cart page's featured-products filter and its quantity controls (`CartPage`);
- the server cart table behind `authenticateToken` (`CartRoutes`, `AuthMiddleware`);
- the e-mail verification-code store with an explicit clock (`EmailRoutes`);
- the client's list of verified e-mails and its form guards (`EmailVerificationPage`);
- registration, login and `/me` over a users table (`AuthRoutes`);
- the registration form (`RegisterPage`, with `encodeURIComponent` in `Uri`);
- order creation as an all-or-nothing transaction over the `orders` and
  `order_items` tables (`OrderTables`, `OrderService`, `OrdersRoutes`);
- Stripe checkout input normalisation and the shipping country list
  (`CheckoutRoutes`, `Countries`);
- the product routes and the client's product list (`ProductsRoutes`, `ProductsContext`);
- the home-page slider (`HeroSlider`);
- `truncateString` (`Formatters`);
- upload file naming and URL building (`UploadRoutes`).

The model treats several things as parameters:

- Database tables are sequences of rows in insertion order, with an
  auto-increment counter.
- The verification-code store is a `map`.
- Other libraries are function parameters: bcrypt `hash`/`compare`, jwt
  `sign`/`verify`, and the Stripe calls.
- So are the SMTP outcome, `Date.now()`, `Math.random()` and the environment
  variables.
- A database failure is a parameter that names the step where it happens.
  For orders, the columns' own refusals (a NULL currency, an out-of-range
  `DECIMAL(10,2)`, a negative `INT UNSIGNED` quantity) are computed from the
  values instead, and the stored money amounts are rounded to cents.

The JavaScript built-ins the code relies on are modelled in `Strings`:

- `trim`, with the full ECMAScript white-space set;
- ASCII `toLowerCase` and `toUpperCase`;
- `includes`;
- `split` on one character;
- number-to-string;
- the global `parseInt`.

Optional values and "truthiness" are in `Wrappers`; the first-row lookup
every table shares is in `Rows`.

## Model

| member | source | states |
|---|---|---|
| AuthMiddleware.BearerToken | backend/src/authMiddleware.js:6 | the header token exists exactly when the header holds a space; it is the text after the first space, up to the next space |
| AuthMiddleware.SelectToken | backend/src/authMiddleware.js:6 | a non-empty cookie token wins; otherwise the token comes from the Authorization header |
| AuthMiddleware.Authenticate | backend/src/authMiddleware.js:5-19 | 401 exactly when there is no token; 403 exactly when verification fails; `next` with the decoded payload exactly when it succeeds; no other outcome |
| AuthMiddleware.CookieFirst | backend/src/authMiddleware.js:6-18 | with a non-empty cookie the header is never consulted |
| AuthMiddleware.BearerHeader | backend/src/authMiddleware.js:6 | `Bearer t` with no cookie authenticates with exactly `t` |
| AuthRoutes.Register | backend/src/authRoutes.js:10-48 | blank normalised email or missing password is 400; a known email is 400 and inserts nothing; otherwise, if the INSERT is refused, 500 with nothing stored, and if it succeeds, exactly one unverified row is appended and the reply is 201 with `requiresEmailVerification` and `emailVerified` false |
| AuthRoutes.RegisterPreservesValid | backend/src/authRoutes.js:21-43 | registration keeps emails unique and ids ascending |
| AuthRoutes.RegisteredFound | backend/src/authRoutes.js:34-43 | after a 201, a lookup by the normalised email finds the new row with the hashed password |
| AuthRoutes.Login | backend/src/authRoutes.js:51-112 | blank email or missing password is 400 with no token; otherwise the reply depends only on the first account with the normalised email |
| AuthRoutes.Answer | backend/src/authRoutes.js:62-107 | unknown is 401; unverified is 403 `EMAIL_NOT_VERIFIED` before any password check; wrong password is 401 with the unknown-email message; success carries a token signed over exactly id and email and a 7-day (604800000 ms) http-only cookie |
| AuthRoutes.WrongPasswordLooksUnknown | backend/src/authRoutes.js:62-85 | a wrong password for a verified account gets the same reply as an email nobody registered |
| AuthRoutes.Me | backend/src/authRoutes.js:121-146 | the middleware's 401/403 pass through; an id no longer in the table is 404; otherwise 200 with the public fields of that row |
| AuthRoutes.VerifyEmailAsWritten | backend/src/emailRoutes.js:70-75 | a correct code changes no user row |
| AuthRoutes.AsWrittenLockedOut | backend/src/authRoutes.js:73-78 | as written, a freshly registered user still gets 403 after any verification, whatever password is tried |
| AuthRoutes.VerifyEmail | backend/src/emailRoutes.js:46-83 | corrected: a 200 from the code check marks every account with that normalised email verified; any other answer changes no user |
| AuthRoutes.VerifyEmailPreservesValid | backend/src/emailRoutes.js:70-75 | marking accounts verified keeps emails unique and ids ascending |
| AuthRoutes.CorrectedUnlocks | backend/src/authRoutes.js:73-101 | with the corrected verification, register, then a successful code check, then login with the right password answers 200 |
| CartContext.Find | src/context/CartContext.tsx:40 | the lookup succeeds exactly when some item has the id, and returns an item with that id |
| CartContext.Without | src/context/CartContext.tsx:65 | no item with the id remains; every other item keeps its multiplicity |
| CartContext.AddExisting | src/context/CartContext.tsx:40-48 | adding a present id keeps the length, raises only the matching item by the payload quantity and leaves every other item unchanged |
| CartContext.AddNew | src/context/CartContext.tsx:50-52 | adding a new id appends the payload at the end: length grows by one |
| CartContext.UpdateSetsQuantity | src/context/CartContext.tsx:54-62 | the matching item gets exactly the quantity; order, length, ids and other items are kept; an absent id changes nothing |
| CartContext.RemoveOnlyTarget | src/context/CartContext.tsx:63-67 | the id disappears; other items keep their multiplicity and relative order; the length drops by the number of removed items |
| CartContext.ClearAndUnknown | src/context/CartContext.tsx:68-71 | CLEAR_CART gives the empty cart with zero items; an unknown action returns the state unchanged |
| CartContext.ReducePreservesUniqueIds | src/context/CartContext.tsx:37-73 | every action keeps item ids pairwise distinct |
| CartContext.ReduceFind | src/context/CartContext.tsx:37-73 | what a lookup of any id returns after each action, in terms of the lookup before it |
| CartContext.TotalsAppend | src/context/CartContext.tsx:95-102 | both totals add up over concatenated carts |
| CartContext.AddExistingTotals | src/context/CartContext.tsx:95-102 | adding a present id raises `totalItems` by the payload quantity and `totalAmount` by the line's price times that quantity |
| CartContext.AddNewTotals | src/context/CartContext.tsx:95-102 | adding a new id raises `totalItems` by its quantity and `totalAmount` by price times quantity |
| CartPage.EligibleProducts | src/pages/CartPage.tsx:12-14 | keeps exactly the catalog products not in the cart and not marked out of stock |
| CartPage.Featured | src/pages/CartPage.tsx:13-15 | a prefix of the eligible products, in catalog order, of length min(4, number eligible) |
| CartPage.FeaturedExcluded | src/pages/CartPage.tsx:12-15 | a featured product is from the catalog, not in the cart, and not `inStock === false` |
| CartPage.DecrementRequest | src/pages/CartPage.tsx:75 | the minus button never requests less than 1 |
| CartPage.IncrementRequest | src/pages/CartPage.tsx:91 | the plus button requests more than the current quantity |
| CartPage.DecrementUndoesIncrement | src/pages/CartPage.tsx:74-95 | from a quantity of at least 1, minus after plus gives the quantity back |
| CartPage.InputRequest | src/pages/CartPage.tsx:83-86 | a parse that yields at least 1 is requested as parsed; a failed parse, 0 or a negative is requested as 1 |
| CartPage.InputOfCount | src/pages/CartPage.tsx:84-85 | typing the decimal form of n >= 1 requests n |
| CartPage.InputOfNonPositive | src/pages/CartPage.tsx:84-85 | typing 0 or a negative number requests 1 |
| CartPage.ControlAction | src/pages/CartPage.tsx:74-98 | each control dispatches on its own line's id; minus and typing request at least 1; trash removes |
| CartPage.ControlsKeepPositive | src/pages/CartPage.tsx:74-98 | starting from positive quantities, no quantity control leaves a non-positive quantity in the cart |
| CartRoutes.RouteAsWritten | backend/src/cartRoutes.js:8-156 | as written: an unauthenticated request gets the middleware's status and leaves the table untouched; GET never changes the table; POST is the `size = ?` add |
| CartRoutes.RouteAsWrittenKeepsNumbering | backend/src/cartRoutes.js:39-156 | as written, every route keeps ids ascending and below the counter (but not "no line twice": see `AsWrittenDuplicatesLine`) |
| CartRoutes.Route | backend/src/cartRoutes.js:8-156 | corrected router: the same authentication and GET behaviour, with POST going to the null-safe `Add` |
| CartRoutes.GetRows | backend/src/cartRoutes.js:11-36 | returns exactly the requesting user's rows whose product exists |
| CartRoutes.GetNewestFirst | backend/src/cartRoutes.js:26-27 | in a valid table the returned rows are newest first |
| CartRoutes.AddWith | backend/src/cartRoutes.js:43-89 | no product id is 400, unknown product 404, out of stock 400, in that order and with no table change; past those checks a refused UPDATE or INSERT is 500 with no table change |
| CartRoutes.AddMergesOrInserts | backend/src/cartRoutes.js:41-83 | when the write succeeds: a match raises that row by the quantity and adds no row (200); no match appends one row with the next id (201). An absent quantity counts 1; a `null` one adds 0 on a merge and is stored as NULL on an insert; a stored NULL counts 0 |
| CartRoutes.NullQuantityAddsNothing | backend/src/cartRoutes.js:41-75 | for every table whose ids ascend and stay below the next id: a successful POST with `quantity: null` whose first matching row holds a number leaves the table unchanged and answers 200 |
| CartRoutes.NullQuantityOnNullLine | backend/src/cartRoutes.js:41-75 | when the first matching row holds NULL, the same POST answers 200 and sets that row's quantity to 0 (`null + null` is 0) |
| CartRoutes.AddAsWritten | backend/src/cartRoutes.js:62-65 | with no size, an in-stock add whose write succeeds always inserts a new row |
| CartRoutes.AsWrittenDuplicatesLine | backend/src/cartRoutes.js:63-64 | two sizeless adds of the same product give two rows for the same line |
| CartRoutes.Add | backend/src/cartRoutes.js:62-83 | corrected, when the write succeeds: the add merges (200) exactly when a row for the same user, product and size (NULL included) exists, else inserts (201) |
| CartRoutes.CorrectedMergesLine | backend/src/cartRoutes.js:62-75 | two sizeless adds of the same product give one row of quantity 2 |
| CartRoutes.Update | backend/src/cartRoutes.js:92-121 | a missing or <1 quantity is 400; a row not owned by the user is 404; otherwise only that row's quantity is set |
| CartRoutes.Remove | backend/src/cartRoutes.js:124-145 | a row not owned by the user is 404 with no change; otherwise exactly that row goes |
| CartRoutes.Clear | backend/src/cartRoutes.js:148-156 | exactly the user's rows go |
| CartRoutes.RoutePreservesValid | backend/src/cartRoutes.js:39-156 | corrected router: every route keeps ids ascending, below the counter, with no line twice |
| CartRoutes.ValidNoDuplicates | backend/src/cartRoutes.js:62-83 | a valid table has no duplicate (user, product, size) line |
| CartRoutes.RouteIsolatesUsers | backend/src/cartRoutes.js:39-156 | as written and corrected: no request by one user changes another user's rows |
| CheckoutRoutes.IsPlaceholderKey | backend/src/checkoutRoutes.js:38-42 | a missing or empty key is a placeholder; a set key is one exactly when its trimmed text contains `your_key_here` |
| CheckoutRoutes.PlaceholderDisablesCheckout | backend/src/checkoutRoutes.js:38-58 | a key containing `your_key_here` makes all three routes answer 500 |
| CheckoutRoutes.SettingValue | backend/src/checkoutRoutes.js:76-79 | an unset or empty setting reads as `ALL`; a set one is trimmed with no lower-case letter left |
| CheckoutRoutes.ShippingChoice | backend/src/checkoutRoutes.js:76-87 | every country exactly when the normalised setting is `ALL` or `*`; otherwise entries that are non-empty, trimmed, upper-case and comma-free |
| CheckoutRoutes.CodeListRoundTrip | backend/src/checkoutRoutes.js:81-87 | a comma list of two-letter codes is read back as exactly those codes, in order |
| CheckoutRoutes.Entries | backend/src/checkoutRoutes.js:86-87 | every kept entry is non-empty, trimmed, upper-case, and one of the mapped parts |
| CheckoutRoutes.Quantity | backend/src/checkoutRoutes.js:73 | a missing or zero quantity is 1; any other is kept |
| CheckoutRoutes.Cents | backend/src/checkoutRoutes.js:71 | the unit amount is within half a cent of price times 100, halves up |
| CheckoutRoutes.CustomerEmail | backend/src/checkoutRoutes.js:94-97 | present exactly when the email has a non-space character; then trimmed and lower-cased, never empty |
| CheckoutRoutes.CustomerEmailIdempotent | backend/src/checkoutRoutes.js:94-97 | normalising a normalised email changes nothing |
| CheckoutRoutes.LineItems | backend/src/checkoutRoutes.js:65-74 | one line item per cart item, in order, with the currency, name, rounded cents and defaulted quantity |
| CheckoutRoutes.CreateSession | backend/src/checkoutRoutes.js:51-110 | unconfigured is 500 before the item check; missing or empty items is 400; a session is started exactly when Stripe accepts the normalised request |
| CheckoutRoutes.GetSession | backend/src/checkoutRoutes.js:113-140 | unconfigured is 500; an empty id is 400; the e-mail reported prefers the customer details over the session's own |
| CheckoutRoutes.CreatePaymentIntent | backend/src/checkoutRoutes.js:143-168 | unconfigured is 500; a non-number, non-finite or non-positive amount is 400; a client secret only for a positive finite amount |
| Countries.AllCountriesAscending | backend/src/checkoutRoutes.js:8-36 | the country list is strictly alphabetical |
| Countries.AllCountriesWellFormed | backend/src/checkoutRoutes.js:8-36 | every entry is two upper-case ASCII letters and none is repeated |
| EmailRoutes.CodeNumber | backend/src/emailRoutes.js:10 | for a draw in [0, 1) the code is an integer in [100000, 999999] |
| EmailRoutes.GenerateCode | backend/src/emailRoutes.js:9-11 | the code is six decimal digits, no leading zero, and parses back to its number |
| EmailRoutes.SendVerification | backend/src/emailRoutes.js:14-43 | a missing or `@`-less email is 400 with the store untouched; otherwise the entry is replaced with expiry now + 600000 ms before sending, and a failed send is 500 that keeps the entry |
| EmailRoutes.VerifyCode | backend/src/emailRoutes.js:46-83 | 200 exactly for a present, unexpired (now <= expires), matching code, which deletes the entry; expiry deletes it with 400; a wrong code keeps it with 400 |
| EmailRoutes.Sweep | backend/src/emailRoutes.js:86-93 | keeps exactly the entries with now <= expires, unchanged |
| EmailRoutes.SendThenVerify | backend/src/emailRoutes.js:25-75 | the code just mailed verifies at any time up to the deadline, inclusive |
| EmailRoutes.SendStores | backend/src/emailRoutes.js:25-30 | after a send, the store holds the mailed code with expiry now + 600000, whether or not the mail went out |
| EmailRoutes.SendThenLate | backend/src/emailRoutes.js:60-63 | one millisecond past the deadline the mailed code fails and the entry is deleted |
| EmailRoutes.SingleUse | backend/src/emailRoutes.js:69-75 | after a successful verification the same request fails |
| EmailRoutes.RetryAfterWrongGuess | backend/src/emailRoutes.js:65-67 | a wrong guess keeps the entry, and the right code still verifies afterwards |
| EmailRoutes.SweepKeepsVerifyAnswers | backend/src/emailRoutes.js:86-93 | a sweep at the same instant never changes a verification's status |
| EmailRoutes.SweepIdempotentAndMonotone | backend/src/emailRoutes.js:86-93 | sweeping twice is sweeping once, and an earlier sweep is subsumed by a later one |
| EmailVerificationPage.VerifiedEmails | src/pages/EmailVerificationPage.tsx:9-17 | a missing key, a parse failure or a non-array gives []; otherwise exactly the array's string elements |
| EmailVerificationPage.Dedup | src/pages/EmailVerificationPage.tsx:21 | no repeats, the same members, and an already distinct list is unchanged |
| EmailVerificationPage.StringsOfEncode | src/pages/EmailVerificationPage.tsx:13-23 | a stored list of strings reads back as the same list |
| EmailVerificationPage.SetEmailVerified | src/pages/EmailVerificationPage.tsx:19-24 | the stored list is a distinct array holding exactly the old entries plus the normalised email |
| EmailVerificationPage.MarkedIsVerified | src/pages/EmailVerificationPage.tsx:19-29 | after marking e, every e' with the same trimmed lower-case form counts as verified, and earlier ones still do |
| EmailVerificationPage.MarkIdempotent | src/pages/EmailVerificationPage.tsx:19-24 | marking the same email twice stores what marking once does |
| EmailVerificationPage.NextPath | src/pages/EmailVerificationPage.tsx:42-47 | the redirect always starts with `/`; a `next` not starting with `/` becomes `/checkout` |
| EmailVerificationPage.MatchesEmailShape | src/pages/EmailVerificationPage.tsx:68 | true exactly when some `@` has a character before it and is later followed by a `.` with characters on both sides, none of them a line break between the `@` and the `.` |
| EmailVerificationPage.HandleSend | src/pages/EmailVerificationPage.tsx:66-76 | the trimmed email is sent exactly when it has that shape |
| EmailVerificationPage.HandleVerify | src/pages/EmailVerificationPage.tsx:90-108 | a blank trimmed email or code stops early; a refusal changes nothing; only a success marks the email and redirects to the guarded path |
| EmailVerificationPage.VerifiedReadsBack | src/pages/EmailVerificationPage.tsx:90-108 | after a successful verify the typed email reads as verified and the redirect is internal |
| Formatters.SliceEnd | src/utils/formatters.ts:14 | where `slice(0, end)` stops, including a negative end counted from the back |
| Formatters.Truncate | src/utils/formatters.ts:12-15 | a string within the limit is unchanged; a longer one is the sliced prefix plus `...`; for a limit >= 0 a cut string has length limit + 3 and ends in `...`, and every result starts with the first min(length, limit) characters |
| Formatters.TruncateShape | src/utils/formatters.ts:12-15 | for a limit >= 0 a cut string has length limit + 3, and the result starts with the first min(length, limit) characters |
| Formatters.TruncateIdempotent | src/utils/formatters.ts:12-15 | for a limit >= 0, truncating twice is truncating once |
| Formatters.NegativeLimitNotIdempotent | src/utils/formatters.ts:14 | for some negative limit truncating twice differs from truncating once: `"abcd"` with -1 gives `"abc..."`, then `"abc....."` |
| HeroSlider.JsRem | src/components/home/HeroSlider.tsx:40 | JavaScript `%`: agrees with the mathematical remainder for a non-negative dividend and is always smaller in magnitude than the divisor |
| HeroSlider.GoNext | src/components/home/HeroSlider.tsx:39-41 | stays in [0, n) and wraps from the last slide to 0 |
| HeroSlider.GoPrev | src/components/home/HeroSlider.tsx:43-45 | stays in [0, n) and wraps from 0 to the last slide |
| HeroSlider.NextPrevInverse | src/components/home/HeroSlider.tsx:39-45 | previous undoes next and next undoes previous |
| HeroSlider.NextTimesAdvances | src/components/home/HeroSlider.tsx:39-41 | k presses of next (within two turns) move k slides on, modulo n |
| HeroSlider.FullTurn | src/components/home/HeroSlider.tsx:39-41 | n presses of next return to the start |
| HeroSlider.OnTick | src/components/home/HeroSlider.tsx:47-56 | with at most one slide, or while paused or hovered, nothing moves; otherwise the index advances by one mod n |
| HeroSlider.OnKey | src/components/home/HeroSlider.tsx:65-73 | ignored with at most one slide; arrows move; space flips pause; other keys do nothing |
| HeroSlider.Step | src/components/home/HeroSlider.tsx:63-138 | every event keeps the index a slide; dot i selects i; the pause button flips pause; the mouse entering or leaving sets hovering |
| HeroSlider.Counter | src/components/home/HeroSlider.tsx:100 | the counter shows a number from 1 to n |
| HeroSlider.SingleSlideStays | src/components/home/HeroSlider.tsx:48-66 | with one slide no sequence of events moves the index |
| HeroSlider.SpaceTwice | src/components/home/HeroSlider.tsx:69-72 | pressing space twice restores the state |
| OrderTables.ItemRows | backend/src/orderService.js:30-35 | one row per item, in order, carrying the order id and that item's product and quantity, and its price as the `DECIMAL(10,2)` column stores it |
| OrderTables.ToCents | backend/src/db.js:80 | what a `DECIMAL(10,2)` column stores: a whole number of cents within half a cent of the value |
| OrderTables.CentsKeepsCents | backend/src/db.js:80 | a value already in cents is stored unchanged, so storing a stored value changes nothing |
| OrderTables.HalfCentRoundsAway | backend/src/db.js:80 | half a cent rounds away from zero on both sides (0.005 to 0.01, -0.005 to -0.01), and 1.235 is stored as 1.24 |
| OrderTables.SchemaFailure | backend/src/db.js:77-127 | the order insert is refused exactly when the total is out of `DECIMAL(10,2)` range, the currency is NULL or over ten characters, or the email is over 255; otherwise the items insert is refused exactly when some item has a quantity outside `INT UNSIGNED` or a price out of range |
| OrderTables.Transact | backend/src/orderService.js:14-70 | the transaction stops at the first of the columns' refusal and the database's own failure; a stop at any step leaves both tables' rows as they were, and one after the order insert still uses up that auto-increment id; a commit (exactly when neither stops it) appends one order with the next id, the total in cents and the non-NULL currency, and the item rows |
| OrderTables.NullCurrencyRefused | backend/src/db.js:81 | a NULL currency is refused at the order insert, whatever else happens: no row is added and no id is used |
| OrderTables.NegativeQuantityRefused | backend/src/db.js:122 | a negative quantity is refused at the items insert: both tables' rows are as before, and the order insert's id is used up |
| OrderTables.TransactKeepsConsistent | backend/src/orderService.js:14-70 | committed or rolled back, no item row is left without its order and every order id stays below the next one |
| OrderTables.CommittedItems | backend/src/orderService.js:30-40 | after a commit the new order owns exactly its item rows, in input order |
| OrderService.SafeStatus | backend/src/orderService.js:18-21 | the status is `pending` or `paid`, and it is `paid` exactly when `paid` was asked for |
| OrderService.SafeStatusIdempotent | backend/src/orderService.js:18-21 | normalising a normalised status changes nothing |
| OrderService.DisplayName | backend/src/orderService.js:53 | productName, else name, else `Product`; never empty |
| OrderService.MailItems | backend/src/orderService.js:52-56 | one mail line per item, in order |
| OrderService.CreateOrder | backend/src/orderService.js:9-71 | an invalid payload throws before any table change; a refusal by the columns or a database failure rolls back both tables at the step where it happens, using up the order id once the order insert has run; a commit returns the new id; a mail is attempted exactly when the email is truthy, and its failure is swallowed |
| OrderService.CreatedStoresOrder | backend/src/orderService.js:16-42 | without a database failure the order commits exactly when the columns accept its values; it then stores the total in cents, the currency, `email or null` and the normalised status, and one item row per item, keeping the tables consistent |
| OrderService.MissingCurrencyRollsBack | backend/src/orderService.js:23-26 | `currency` has no default here, so a call without one binds NULL: it rolls back at the order insert and leaves the tables, id counter included, as they were |
| OrderService.MailFailureSwallowed | backend/src/orderService.js:42-63 | whether the mail goes out changes neither the id nor the tables |
| OrderService.MailListsItems | backend/src/orderService.js:45-56 | an order the columns accept is created, and the confirmation goes to the customer, names the new order and lists every item under its display name |
| OrdersRoutes.BoundCurrency | backend/src/ordersRoutes.js:8 | `kes` when the field is absent, NULL exactly when it is `null`, and the given value otherwise |
| OrdersRoutes.Post | backend/src/ordersRoutes.js:7-47 | corrected (`pool` bound to the connection pool): an invalid payload is 400 with no writes; a refusal by the columns or a database failure is 500 with no order or item row persisted; a commit is 201 with the id, the total in cents, currency default `kes`, status `paid` and one item row per item |
| OrdersRoutes.NullCurrencyFails | backend/src/ordersRoutes.js:8-44 | corrected: a `currency: null` body is answered 500 `Failed to create order` and leaves the tables, id counter included, as they were |
| OrdersRoutes.PostAsWritten | backend/src/ordersRoutes.js:3-14 | as written, past validation the handler never replies and writes nothing |
| OrdersRoutes.AsWrittenNeverCreates | backend/src/ordersRoutes.js:3-14 | a valid payload gets no reply and no order as written, where the intended handler answers 201 and stores one order whenever the columns accept the values |
| OrdersRoutes.PostStoresPaidOrder | backend/src/ordersRoutes.js:18-43 | corrected: 201 exactly for a valid payload whose values the columns accept and that meets no database failure; the stored order is `paid` and owns its items; anything else leaves both tables' rows unchanged |
| ProductsContext.CreateRequest | src/context/ProductsContext.tsx:48 | the request is the draft with `inStock` forced to true and nothing else changed |
| ProductsContext.AddProduct | src/context/ProductsContext.tsx:46-55 | on success the created product is appended at the end and returned; on failure the list is kept and the error surfaces |
| ProductsContext.Remove | src/context/ProductsContext.tsx:58 | keeps exactly the products whose id differs |
| ProductsContext.RemoveKeepsOrder | src/context/ProductsContext.tsx:58 | the kept products stay in their original order |
| ProductsContext.DeleteProduct | src/context/ProductsContext.tsx:57-67 | every product with that id goes at once, whatever the API answers; an absent id changes nothing |
| ProductsContext.Step | src/context/ProductsContext.tsx:27-44 | a load replaces the list only while the effect is live; a failed load and the cleanup keep the list |
| ProductsContext.CancelledIgnoresLoads | src/context/ProductsContext.tsx:32-43 | after cleanup no sequence of loads or failures changes the state |
| ProductsRoutes.NewestFirst | backend/src/productsRoutes.js:8 | the rows in reverse insertion order |
| ProductsRoutes.List | backend/src/productsRoutes.js:6-14 | lists as many rows as the table holds, and exactly the stored products |
| ProductsRoutes.ListDescends | backend/src/productsRoutes.js:8 | in a valid table the listing's ids strictly descend |
| ProductsRoutes.Get | backend/src/productsRoutes.js:17-26 | 404 `Product not found` exactly when no row has the id; otherwise a stored row with that id |
| ProductsRoutes.NewRow | backend/src/productsRoutes.js:36-38 | optional text columns default to NULL; the product is in stock unless the body says exactly `false` |
| ProductsRoutes.Create | backend/src/productsRoutes.js:29-55 | a missing name or null price is 400 with no change (price 0 passes); an insert stores and returns the new row (201); `ER_DATA_TOO_LONG` is 400 and any other error 500, neither changing the table |
| ProductsRoutes.CreateThenGet | backend/src/productsRoutes.js:36-41 | a created product is then found under its id, and the table stays valid |
| ProductsRoutes.Without | backend/src/productsRoutes.js:60 | keeps exactly the rows whose id differs; an absent id changes nothing |
| ProductsRoutes.Delete | backend/src/productsRoutes.js:58-66 | when the statement runs, 204 whether or not a row had the id, and no row keeps it; when it throws, 500 `Failed to delete product` and the table is unchanged |
| ProductsRoutes.DeleteThenGet | backend/src/productsRoutes.js:58-66 | after a delete that runs the id is 404, the table stays valid, and deleting again changes nothing; after one that throws the lookup answers as before |
| RegisterPage.HandleSubmit | src/pages/RegisterPage.tsx:17-58 | mismatched passwords are reported before the length check; fewer than 6 characters stops before `register`; a register error shows its message or the generic one; success navigates whether or not the mail was sent |
| RegisterPage.SendFailureDoesNotBlock | src/pages/RegisterPage.tsx:37-49 | a failed verification mail does not change where a successful registration goes |
| RegisterPage.QueryCarriesEmail | src/pages/RegisterPage.tsx:49 | the path is `/verify-email?email=` followed by text that decodes back to the email |
| Uri.EncodeChar | src/pages/RegisterPage.tsx:49 | each character becomes a non-empty run of unreserved characters, `%` and hex digits |
| Uri.Encode | src/pages/RegisterPage.tsx:49 | the output uses only unreserved characters, `%` and hex digits, and is no shorter than the input |
| Uri.DecodeEncode | src/pages/RegisterPage.tsx:49 | decoding the encoded email gives the email back |
| UploadRoutes.BaseName | backend/src/uploadRoutes.js:21 | the last path segment, trailing slashes ignored, holds no `/` |
| UploadRoutes.LastDot | backend/src/uploadRoutes.js:21 | the position of the last `.`, present exactly when there is one |
| UploadRoutes.ExtName | backend/src/uploadRoutes.js:21 | `path.extname`: non-empty exactly when the base name is not `..` and has a `.` after its first character; then a dot-led suffix of the base name |
| UploadRoutes.Extension | backend/src/uploadRoutes.js:21 | always a dot and a tail with no further dot or slash; the original's extension when it has one, else `.jpg` |
| UploadRoutes.RandomSuffix | backend/src/uploadRoutes.js:20 | `Math.round(random * 1e9)`: the nearest integer, at most 10^9 |
| UploadRoutes.StoredNameShape | backend/src/uploadRoutes.js:19-23 | the name is the timestamp digits, a dash, the suffix and the extension, which is `.jpg` for an original without one |
| UploadRoutes.DropTrailingSlash | backend/src/uploadRoutes.js:38 | at most one trailing slash comes off |
| UploadRoutes.BaseUrl | backend/src/uploadRoutes.js:37 | the configured base when it is set and non-empty |
| UploadRoutes.UploadImage | backend/src/uploadRoutes.js:31-41 | no file is 400; otherwise 201 with path `/uploads/` + stored name and a URL that is the base without its trailing slash followed by the path, so it ends with the path |
| UploadRoutes.SlashInsensitive | backend/src/uploadRoutes.js:38 | a base with one trailing slash gives the same URL as the base without it |
| Rows.First | backend/src/authRoutes.js:71 | `rows[0]` of a `SELECT ... WHERE`: nothing exactly when no row is selected; otherwise a selected row with no selected row before it |
| Strings.TrimIdempotent | backend/src/authRoutes.js:14 | trimming twice is trimming once |
| Strings.TrimLowerIdempotent | backend/src/authRoutes.js:14 | normalising an email twice is normalising it once |
| Strings.ContainsTrim | backend/src/checkoutRoutes.js:40-41 | a trimmed, non-empty marker found in a key is still found after trimming it |
| Strings.SplitJoin | backend/src/checkoutRoutes.js:84-85 | splitting a separator-joined list of separator-free parts gives the parts back |
| Strings.JoinSplit | backend/src/checkoutRoutes.js:84-85 | joining the split pieces with the separator gives the string back |
| Strings.NatToString | backend/src/uploadRoutes.js:20 | decimal digits, no leading zero, whose value is the number |
| Strings.ParseIntOfNatToString | src/pages/CartPage.tsx:84 | `parseInt` reads a number's decimal form back as the number |
| Strings.ParseIntOfNegative | src/pages/CartPage.tsx:84 | `parseInt` reads `-` and a number's decimal form as its negation |

## Left out

- SMTP: `sendVerificationEmail` and `sendOrderConfirmation` (backend/src/emailService.js) are a boolean "the send succeeded" parameter; templates and formatting are not modelled.
- Stripe: `sessions.create`, `sessions.retrieve` and `paymentIntents.create` are function parameters standing for Stripe's answer (`None` when the call throws). The success and cancel URLs, `mode` and the collection flags are constant request fields with no logic and are not modelled.
- CheckoutRoutes.Cents: takes `price * 100` as an exact real and rounds halves up; the binary floating-point product of the source can round differently near a half.
- Strings.ToLower: maps ASCII letters only; JavaScript's `toLowerCase` also maps non-ASCII letters.
- Strings.ToUpper: maps ASCII letters only; JavaScript's `toUpperCase` also maps non-ASCII letters.
- Strings.TrimLower: inherits the ASCII-only lower-casing, so emails with non-ASCII capitals normalise differently from the source.
- bcrypt and jwt are function parameters: `hash`, `compare`, `sign`, and `verify` returning `None` for an invalid or expired token. The JWT secret and expiry are therefore not modelled.
- JSON request bodies arrive already parsed, as datatypes; each field is present, absent or `null` as the handler distinguishes it. `JSON.parse` of the verified-e-mail list is a parsed value or a parse failure.
- Database errors on the read paths (the `catch` blocks that answer 500 on a SELECT), and on the cart's `PUT /:cartItemId` UPDATE and its two DELETE routes, are not modelled. A write failure is a parameter wherever else the source answers it with its own 500: the product insert and delete, the users INSERT of registration, the UPDATE or INSERT of the cart POST, and the order transaction steps.
- AuthRoutes.Register: a refused INSERT leaves the id counter unchanged; InnoDB may use up an id even then.
- CartRoutes.AddWith: a refused INSERT leaves the id counter unchanged; InnoDB may use up an id even then.
- MySQL string comparison (case- and trailing-space-insensitive collation) is modelled as exact equality in `AuthRoutes.ByEmail` and the cart line match.
- CartRoutes.GetNewestFirst: `ORDER BY ci.created_at DESC` is modelled as descending id; rows created within the same timestamp may come back in another order.
- ProductsRoutes.NewestFirst: `ORDER BY created_at DESC` is modelled as reverse insertion order, with the same caveat about equal timestamps.
- Route ids from `req.params` are natural numbers; a non-numeric id is not modelled.
- HeroSlider.OnTick: reads the pause and hover flags directly. The source reads `pausedRef`, which an effect updates after the render, so a tick racing that effect is not modelled. The slide list is any `n >= 1` slides; the image URLs are not modelled.
- HeroSlider.NextTimesAdvances: stated for fewer than two full turns, enough for `FullTurn`.
- Formatters.Truncate: the limit is an integer; a fractional or `NaN` `maxLength` is not modelled.
- Formatters.Truncate: lengths and cuts count Unicode code points (a Dafny `char`), where JavaScript's `length` and `slice` count UTF-16 code units. Outside the Basic Multilingual Plane the two differ: `truncateString("😀", 1)` is `"\uD83D..."` in JavaScript and `"😀"` here.
- Formatters.TruncateShape: the length limit + 3 and the kept prefix are counted in code points, not in UTF-16 code units.
- RegisterPage.HandleSubmit: `password.length < 6` is counted in code points. Three characters outside the Basic Multilingual Plane have JavaScript length 6 and pass the source's check, but are refused here.
- Uri.Encode: strings are sequences of Unicode scalar values, so a lone surrogate (for which `encodeURIComponent` throws `URIError`) cannot be represented.
- Uri.DecodeEncode: holds for strings of Unicode scalar values; lone surrogates are outside the model, as for `Uri.Encode`.
- CartContext.TotalAmount: sums `price * quantity` as exact reals, where the source's `reduce` adds doubles left to right and rounds at each step (prices 0.1 and 0.2 give 0.30000000000000004 in JavaScript and 0.3 here). `TotalsAppend`, `AddExistingTotals` and `AddNewTotals` hold for exact arithmetic, not for the source's floating-point totals.
- CartContext.TotalsAppend: exact-real sums; floating-point addition is not associative, so the split sum can differ from the source's.
- CartContext.AddExistingTotals: the increment of `totalAmount` is exact; with doubles it holds only up to rounding.
- CartContext.AddNewTotals: the increment of `totalAmount` is exact; with doubles it holds only up to rounding.
- OrderTables.Transact: a failure at the order insert itself is taken to use up no id. InnoDB can use one up even for a failed insert, so the next committed id may then be one higher in the database than here.
- OrderTables.Transact: the columns are those of the `CREATE TABLE` statements under MySQL's default strict SQL mode; without strict mode out-of-range values are clipped instead of refused, and an `orders` table that already existed keeps whatever columns it had.
- OrderTables.Transact: `product_id` is `INT UNSIGNED` with a foreign key to `products`, but an item's product id is kept as the text the client sent; a product id the column or the foreign key refuses is one of the database failures the `failure` parameter stands for, not computed from the value.
- OrderTables.Transact: the `id` column's `INT UNSIGNED` limit is not modelled; the counter is unbounded.
- OrderTables.ToCents: rounds the exact real it is given; the source binds a double, whose decimal form is what MySQL rounds, so a total computed in floating point may land on the other side of a half cent.
- ProductsRoutes.Delete: whether the delete throws is the `fails` parameter. The products table does not see `order_items`, so the model does not compute that the `FOREIGN KEY (product_id) REFERENCES products(id)` of backend/src/db.js:125 refuses to delete every product that has been ordered.
- Strings.ParseInt: returns an exact unbounded integer. JavaScript's `parseInt` returns a double: it is exact only below 2^53 in magnitude, so `"9007199254740993"` reads as 9007199254740992, and a digit string longer than about 309 digits reads as `Infinity`.
- Strings.ParseIntOfNatToString: holds for the exact parse; in the source it holds only for numbers below 2^53.
- Strings.ParseIntOfNegative: holds for the exact parse; in the source it holds only for numbers above -2^53.
- CartPage.InputRequest: the parse is exact. In the source, typing `9007199254740993` requests 9007199254740992, and a digit string of more than about 309 digits requests `Infinity || 1`, which is `Infinity`.
- CartPage.InputOfCount: typing n requests n only for n below 2^53 in the source; above that the nearest double is requested.
- UploadRoutes: multer's disk storage and `fs` are not modelled; the handler sees the file's original name only.
- UploadRoutes.StoredName: has no contract of its own; `StoredNameShape` states its shape.
- `POST /logout` (backend/src/authRoutes.js:115-118) only clears the cookie and answers 200, and is not modelled.
- The emailRoutes store is keyed by the raw e-mail string as the route receives it; this follows the source, where no normalisation happens.
- Timers: the five-minute sweep is `Sweep(store, now)`, and the slider interval is the `Tick` event. `Date.now()` and `Math.random()` are parameters.
- Not part of this model: backend/src/db.js apart from the `orders` and `order_items` columns (the pool setup and the other tables), server wiring, backend/src/debugRoutes.js, the UI pages and components without decision logic, src/services/api.ts and src/hooks/useProducts.ts, CurrencyContext and PriceDisplay (floating-point exchange rates), and `formatCurrency`/`formatDate` (Intl formatting).

## Findings

| source | as written | input that shows it | evidently intended | confidence | as-written member | corrected member |
|---|---|---|---|---|---|---|
| backend/src/cartRoutes.js:63-64 | the existing-line lookup compares `size = ?`, which is never true when either side is NULL | two `POST /api/cart` with the same `productId` and no `size` | the second add raises the quantity of the first row to 2 | high, not executed | CartRoutes.AsWrittenDuplicatesLine | CartRoutes.CorrectedMergesLine |
| backend/src/authRoutes.js:73-78 | login refuses `email_verified = 0`, but nothing ever sets the flag: `/verify-code` (backend/src/emailRoutes.js:70-75) only deletes the code | register, verify with the mailed code, then log in with the right password | verification marks the account, and the login answers 200 | high, not executed | AuthRoutes.AsWrittenLockedOut | AuthRoutes.CorrectedUnlocks |
| backend/src/ordersRoutes.js:3 | `const pool = require('./db')` binds the module object, so `pool.getConnection` is undefined and line 14 throws outside the `try` | any valid payload, e.g. one item and `totalAmount: 10` | the order is stored and the reply is 201 with its id | high, not executed | OrdersRoutes.AsWrittenNeverCreates | OrdersRoutes.PostStoresPaidOrder |
