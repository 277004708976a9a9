# E-commerce back office: a Dafny model

This project models the request handlers of a small e-commerce back office: an
Express/Prisma REST API over users, products, cart lines and orders, plus the
state updaters of two pages of the React admin panel.

The database is an immutable `Db.Store`. It holds sequences of user, product,
cart and order rows and an id counter. Every handler is a pure function from a
request and a store to an `Outcome`: the reply (HTTP status and the `success`
flag of the JSON envelope, or `NoReply` when the handler's promise rejects
outside any try/catch), the store afterwards, and the payload.

Some services are parameters. JSON Web Token signing and verification, bcrypt
hashing and comparison, `validator.isEmail`, the image host and the payment
session all enter that way. Nothing else about them is assumed.

The modules follow the program:

- `Cart` models `cart-controller.js`.
- `Orders` models `order-controller.js`.
- `Users` models `user-controller.js`.
- `Auth` models the two guards `auth.js` and `adminAuth.js`.
- `Accounts` models `auth-controller.js`.
- `Products` models `product-controller.js`.
- `EditPage` models `Edit.jsx`.
- `OrderPage` models `Order.jsx`.
- `Db`, `Seqs`, `Text`, `Json` and `Wrappers` hold what these share:
  - the tables, lookups and cascading deletes;
  - `where`/`orderBy`;
  - JavaScript's `split`, `trim`, case mapping and UTF-16 `length`;
  - `JSON.stringify`/`JSON.parse` of string lists;
  - `Option`.

JavaScript's loose values are modelled explicitly.

- A numeric id of 0 stands for a missing or falsy id.
- `Number(x)` of a request amount is `Db.Num`, which is either a value or NaN.
- A cart line's `sizes` column is the JSON text of a one-element list, as `JSON.stringify([size])` writes it. The encoder follows JSON.stringify's string escaping.
- A `status` that the database leaves to the column default is `None`.

## Model

| member | source | states |
|---|---|---|
| Json.DecodeEncode | backend/controllers/cart-controller.js:117 | parsing the text `JSON.stringify` writes for a list of strings gives back that list |
| Json.EncodeInjective | backend/controllers/cart-controller.js:25 | two lists of strings are stored as the same JSON text only if they are equal, so matching on the text matches on the list |
| Cart.SizeRoundTrip | backend/controllers/cart-controller.js:117 | `JSON.parse(JSON.stringify([size]))[0]` is `size` for every size |
| Cart.EncodeSizeInjective | backend/controllers/cart-controller.js:21-27 | the `findFirst` on the stored size text matches exactly the lines for the same size |
| Cart.FindLine | backend/controllers/cart-controller.js:21-27 | the lookup finds a line with the user, product and size when one exists, and reports none exactly when none exists |
| Cart.CallerCheck | backend/controllers/cart-controller.js:12-19 | a falsy user id answers 400, an unknown user 404, and a known user passes |
| Cart.AddToCart | backend/controllers/cart-controller.js:7-50 | success exactly for a known, non-zero user; 400 for id 0 and 404 for an unknown user, with the store unchanged; users, products and orders never change |
| Cart.AddToCartAddsOne | backend/controllers/cart-controller.js:21-42 | a successful add raises the units held under (user, product, size) by exactly one and leaves the units under every other key unchanged |
| Cart.AddToCartNewLine | backend/controllers/cart-controller.js:34-42 | with no matching line, one line is appended with quantity 1 and the size stored as the singleton JSON list |
| Cart.AddToCartExistingLine | backend/controllers/cart-controller.js:29-33 | with a matching line, no line is created and that line's quantity rises by one |
| Cart.AddToCartKeepsKeysUnique | backend/controllers/cart-controller.js:21-42 | at most one line per (user, product, size) before an add means at most one after it |
| Cart.AddTwiceOneLine | backend/controllers/cart-controller.js:21-42 | adding the same product and size twice to a cart without it gives one line with quantity 2 |
| Cart.UpdateCart | backend/controllers/cart-controller.js:53-95 | success exactly when the user is known and holds the line; otherwise 400 or 404 with the store unchanged; quantity ≤ 0 removes exactly one line |
| Cart.UpdateCartSetsHeld | backend/controllers/cart-controller.js:75-87 | after a successful update the key holds `quantity` units (none when quantity ≤ 0) and every other key is unchanged |
| Cart.UpdateCartKeepsKeysUnique | backend/controllers/cart-controller.js:75-90 | updating keeps at most one line per (user, product, size) |
| Cart.UpdateCartFrame | backend/controllers/cart-controller.js:75-87 | a successful update changes only the matched line; every other line keeps its position and value |
| Cart.GetUserCart | backend/controllers/cart-controller.js:98-129 | reading never changes the store; id 0 is answered 400; success comes exactly with a grouped cart |
| Cart.GroupReportsHeld | backend/controllers/cart-controller.js:115-122 | with unique keys, entry product → size of the grouped cart exists exactly when the user holds that line and the size is not `"__proto__"`, and equals its quantity; other users' lines never appear |
| Cart.GetUserCartReportsHeld | backend/controllers/cart-controller.js:106-124 | for a cart written by the handlers (unique keys, and every size stored as `addToCart` writes it), `getUserCart` answers 200 with the caller's units per product and size, except that a `"__proto__"` size never shows |
| Cart.AddToCartKeepsCanonical | backend/controllers/cart-controller.js:34-42 | every line `addToCart` writes holds its size as the JSON text that reads back to that size, and other lines keep theirs |
| Cart.UpdateCartKeepsCanonical | backend/controllers/cart-controller.js:75-90 | `updateCart` changes quantities and deletes lines only, so every stored size stays readable as written |
| Cart.ResetCartKeepsCanonical | backend/controllers/cart-controller.js:145-147 | `resetCart` only deletes lines, so every stored size stays readable as written |
| Cart.PutAt | backend/controllers/cart-controller.js:118-121 | writing `cartData[productId][size]` sets that one entry, creating the product's map when absent, and leaves every other entry as it was; the size `"__proto__"` hits `Object.prototype`'s setter, which ignores a number, so no entry appears |
| Cart.GroupDefined | backend/controllers/cart-controller.js:115-122 | when every one of the user's lines holds a size written by `addToCart`, the grouping loop finishes without a JSON.parse error |
| Cart.GroupAt | backend/controllers/cart-controller.js:115-122 | with unique keys, the grouped cart has an entry for product and size exactly when the user holds such a line and the size is not `"__proto__"`, and the entry is the units held |
| Cart.GroupOfNoLines | backend/controllers/cart-controller.js:115-122 | a user without lines reads back the empty mapping |
| Cart.ZeroQuantityThenReadOmits | backend/controllers/cart-controller.js:76-80 | setting a line's quantity to 0 and reading the cart shows no entry for that product and size |
| Cart.ResetCart | backend/controllers/cart-controller.js:132-154 | 400/404 leave the store unchanged; success leaves the caller no line; users, products and orders never change |
| Cart.ResetCartHeld | backend/controllers/cart-controller.js:145-147 | resetting leaves the caller nothing under any key and every other user exactly what they held |
| Cart.ResetCartIdempotent | backend/controllers/cart-controller.js:145-147 | resetting twice is the same as resetting once |
| Orders.MissingFields | backend/controllers/order-controller.js:57-63 | the `missing` list names exactly the invalid fields, in the order userId, items, amount, address, paymentMethod |
| Orders.MissingFieldsCharacterised | backend/controllers/order-controller.js:57-63 | any list that names exactly the invalid fields in check order is the `missing` list |
| Orders.LineQuantity | backend/controllers/order-controller.js:92 | a falsy quantity becomes 1; any other is kept |
| Orders.Snapshot | backend/controllers/order-controller.js:89-93 | one order item per submitted line, in order, with its product, size and defaulted quantity |
| Orders.PlaceOrder | backend/controllers/order-controller.js:52-105 | 400 with the missing list or 404 for an unknown user, with the store unchanged; success creates one unpaid order holding the snapshot and clears the caller's cart |
| Orders.PlaceOrderClearsOnlyCallersCart | backend/controllers/order-controller.js:98 | after placing, the caller's cart reads back empty and every other user's holdings are unchanged |
| Orders.PlaceOrderStripe | backend/controllers/order-controller.js:108-198 | items, then amount > 0, then address are checked, and the first failure answers 400 with its message; an unknown user gets 404; once every check passes the transaction commits: a "Pending", unpaid "Stripe" order with the request's amount, address, date and items is created and the caller's cart cleared; then a session answers 200 with the new id and the session recorded, while a failed session answers 500 with the order and the cleared cart left in place |
| Orders.PlacementKeepsIdsFresh | backend/controllers/order-controller.js:80-96 | both placement handlers keep every order id below the id counter |
| Orders.Confirm | backend/controllers/order-controller.js:22-25 | confirmation sets `payment` and the status "Order Placed" and changes no other field |
| Orders.VerifyStripe | backend/controllers/order-controller.js:7-38 | without `success=true` and an order id, the answer is "Payment failed" and nothing changes; an unknown order gives 404; otherwise only that order is confirmed |
| Orders.VerifyStripeIdempotent | backend/controllers/order-controller.js:10-30 | confirming the same payment twice is the same as confirming it once |
| Orders.CardOrderLifecycle | backend/controllers/order-controller.js:138-185 | a card order is created "Pending" and unpaid, and confirming it makes it paid and "Order Placed" |
| Orders.UpdateStatus | backend/controllers/order-controller.js:233-273 | missing id or status gives 400 and an unknown order 404, with no change; success changes only the status of that order, to the label with first letter upper case and the rest lower case |
| Orders.UpdateStatusIgnoresCase | backend/controllers/order-controller.js:260 | labels that differ only in letter case have the same effect |
| Orders.UpdateStatusIdempotent | backend/controllers/order-controller.js:257-262 | sending the same label again, or the stored label, changes nothing further |
| Orders.UpdateStatusStoredLabels | backend/controllers/order-controller.js:260 | "shipped" and "SHIPPED" are stored as "Shipped", "Out for Delivery" as "Out for delivery", "Order Placed" as "Order placed", and "Packing" unchanged |
| Orders.AllOrders | backend/controllers/order-controller.js:40-50 | every order exactly once, newest first by date |
| Orders.UserOrders | backend/controllers/order-controller.js:201-230 | exactly the caller's orders, newest first by date |
| Orders.UserOrdersWithinAll | backend/controllers/order-controller.js:204-205 | one user's listing is part of the full listing |
| Text.NormalizeStatus | backend/controllers/order-controller.js:260 | the stored label has its first character upper case and the others lower case, and differs from the sent label only in letter case |
| Text.NormalizeStatusShape | backend/controllers/order-controller.js:260 | the normaliser keeps the length, changes letters only in case, yields first-upper-rest-lower text, and fixes text already in that form |
| Text.NormalizeStatusIdempotent | backend/controllers/order-controller.js:260 | normalising twice is normalising once |
| Text.NormalizeStatusCaseInsensitive | backend/controllers/order-controller.js:260 | two labels normalise alike exactly when they differ only in letter case |
| Users.DeleteUser | backend/controllers/user-controller.js:20-47 | a missing id answers 400 with no change; otherwise the user's cart lines and orders are deleted first, then the user row, and an unknown user answers 500 after the first two deletions |
| Users.DeleteUserCascade | backend/controllers/user-controller.js:31-36 | after a successful deletion no row with that user id remains in users, carts or orders, and every other user, order and cart holding survives |
| Users.DeleteUnknownUserIsPartial | backend/controllers/user-controller.js:31-45 | deleting an unknown user answers 500 but has removed that id's cart lines and orders |
| Users.ListUsers | backend/controllers/user-controller.js:3-18 | id, name and email of every user, newest first by creation time |
| Users.ListUsersComplete | backend/controllers/user-controller.js:5-12 | every user appears in the listing |
| Auth.TokenIsSecondField | backend/middleware/auth.js:12 | for a header starting "Bearer ", `split(" ")[1]` is the text after "Bearer " up to the next space |
| Auth.BearerTokenShape | backend/middleware/auth.js:12 | the token has no space and the header begins with "Bearer " followed by the token |
| Auth.AuthUser | backend/middleware/auth.js:3-28 | no "Bearer " header gives 401; a rejected token gives 401 with its message; a token without id gives 401; otherwise the request proceeds with just the id |
| Auth.AdminAuth | backend/middleware/adminAuth.js:3-21 | no "Bearer " header gives 401; a rejected token is unhandled; an email other than ADMIN_EMAIL gives 403; otherwise the request proceeds with the decoded claims |
| Auth.AdminAuthUnsetEmail | backend/middleware/adminAuth.js:14-20 | with ADMIN_EMAIL unset, any verified token without an email passes the admin guard |
| Auth.BearerTokenOf | backend/middleware/auth.js:6-12 | a space-free token sent as "Bearer <token>" is the token the guards verify |
| Text.BlankIffAllSpace | backend/controllers/auth-controller.js:58 | `trim()` yields "" exactly when every character is white space |
| Accounts.LoginFromBody | backend/controllers/auth-controller.js:56-61 | a missing e-mail, or a missing password after a non-blank e-mail, throws: no answer and no change; a blank e-mail answers 400; with both fields present it is `Accounts.LoginUser` |
| Accounts.LoginUser | backend/controllers/auth-controller.js:55-80 | with both fields present: blank email or password gives 400, an unknown email or a wrong password 401; a login succeeds exactly for a matching password, with a token for `{id}` and the user without the password; the store never changes |
| Accounts.LoginTokenAdmitted | backend/controllers/auth-controller.js:75-76 | the login token lets the shopper through `authUser` as that user |
| Accounts.LoginTokenNotAdmin | backend/controllers/auth-controller.js:75-76 | the login token is refused with 403 by `adminAuth` while ADMIN_EMAIL is set |
| Accounts.AdminLogin | backend/controllers/auth-controller.js:83-100 | a missing field gives 400; success exactly when both match the configured values, with a token for `{email}`; otherwise 401 |
| Accounts.AdminTokenAdmitted | backend/controllers/auth-controller.js:91-96 | the admin token passes `adminAuth` |
| Text.Utf16LengthBounds | backend/controllers/auth-controller.js:29 | `length` counts UTF-16 code units: between one and two per character, one per character outside the astral planes |
| Accounts.Failures | backend/controllers/auth-controller.js:11-33 | the failing registration checks, each once, in the order the handler makes them |
| Accounts.RegisterFromBody | backend/controllers/auth-controller.js:8-11 | a missing field that the blank check reaches (every field before it non-blank) throws, with no answer and no change; a missing field after a blank one gives 400 "Please fill all data" and no change; with all three fields present it is `Accounts.RegisterUser` |
| Accounts.RegisterUser | backend/controllers/auth-controller.js:7-53 | with all three fields present: success exactly when no check fails; otherwise 400 with the first failure's message; the store stays as it was exactly when two or more checks fail or the only failure is the taken e-mail; otherwise the account is created |
| Accounts.RegisterSingleFailureCreates | backend/controllers/auth-controller.js:11-51 | with exactly one failing check other than the taken e-mail, the request is refused and the account is created anyway |
| Accounts.RegisterWeakPasswordStillCreates | backend/controllers/auth-controller.js:29-51 | a fresh, valid e-mail with password "abc" is refused with "Please enter a strong password" and the account is created |
| Accounts.RegisterTokenRejected | backend/controllers/auth-controller.js:36-37 | the token of a successful registration carries no id, so `authUser` refuses it with 401 |
| Accounts.RegisterUserChecked | backend/controllers/auth-controller.js:7-53 | the first failing check answers 400 and nothing is stored; otherwise the account is created and the token names its id |
| Accounts.RegisterCheckedTokenAdmitted | backend/controllers/auth-controller.js:36-51 | after a corrected registration the e-mail finds exactly the new account and its token passes `authUser` |
| Accounts.RegisterCheckedKeepsEmailsUnique | backend/controllers/auth-controller.js:16-21 | the corrected registration never creates a second account for an e-mail |
| Products.Supplied | backend/controllers/product-controller.js:9-17 | the supplied image paths are exactly those of the filled slots, one per filled slot |
| Products.SuppliedAt | backend/controllers/product-controller.js:15-17 | a filled slot's path sits at the position given by the number of filled slots before it |
| Products.SuppliedInSlotOrder | backend/controllers/product-controller.js:9-17 | two filled slots keep their relative order among the supplied paths |
| Products.UploadAll | backend/controllers/product-controller.js:19-26 | all uploads succeed exactly when a URL list comes back, with one URL per path in the same order |
| Products.ParseSizes | backend/controllers/product-controller.js:34 | `JSON.parse` of the sizes text gives back every list of strings that `JSON.stringify` wrote; no text gives nothing |
| Products.AddFlag | backend/controllers/product-controller.js:35 | `addProduct` sets the flag exactly when the text is "true" |
| Products.AddProduct | backend/controllers/product-controller.js:5-50 | a failed upload or an unparsable size list gives no reply and no change; otherwise one product is created with 201, its URLs in slot order and the flag set exactly by the text "true" |
| Products.AddProductImageOfSlot | backend/controllers/product-controller.js:9-37 | when the product is created, the image sent in slot K is hosted at the position of the product's image list given by the filled slots before it |
| Products.ListProduct | backend/controllers/product-controller.js:53-70 | every product, without its creation time, newest first |
| Products.ListProductComplete | backend/controllers/product-controller.js:55-68 | every product appears in the listing |
| Products.SingleProduct | backend/controllers/product-controller.js:85-113 | a missing id gives 400 and an id no product has gives 404; otherwise the product with that id; the store never changes |
| Products.RemoveProduct | backend/controllers/product-controller.js:73-82 | a missing id gives 400 with no change; an unknown id gives no reply; otherwise exactly that product is removed |
| Products.RemoveProductLeavesOthers | backend/controllers/product-controller.js:80 | after a removal the id is gone and every other product is still stored |
| Products.UpdateProduct | backend/controllers/product-controller.js:116-162 | a missing id gives 400; a failure leaves the store unchanged; a success stores the flag as `Boolean(bestseller)` |
| Products.UpdateProductFrame | backend/controllers/product-controller.js:146-149 | an update rewrites one product row; other products and other tables are unchanged |
| Products.UpdateWith | backend/controllers/product-controller.js:128-161 | an unparsable size list or an unknown id gives 500 with no change; success rewrites the matching row's fields and keeps its id, images and creation time |
| Products.UpdateProductFalseIsTrue | backend/controllers/product-controller.js:143 | with the text "false", a successful update makes the product a bestseller, while a product `addProduct` creates from the same form is not one |
| Products.UpdateProductChecked | backend/controllers/product-controller.js:116-162 | the corrected update stores the flag exactly when the text is "true" |
| Products.UpdateProductCheckedAgrees | backend/controllers/product-controller.js:35 | when both succeed, the corrected update and `addProduct` read every flag text alike |
| EditPage.FormOf | admin/src/pages/Edit.jsx:41-49 | the form takes each field of the fetched product, and its sizes default to the empty list |
| EditPage.FetchProduct | admin/src/pages/Edit.jsx:33-58 | a fetched product replaces the form by that product's form; a refusal or a failure leaves it unchanged |
| EditPage.FetchShowsStoredProduct | admin/src/pages/Edit.jsx:38-49 | loading a stored product shows its stored sizes and flag |
| EditPage.HandleInputChange | admin/src/pages/Edit.jsx:71-77 | exactly the named field changes: to the checkbox state for checkboxes, otherwise to the text |
| EditPage.InputChangeLastWins | admin/src/pages/Edit.jsx:71-77 | a second change of the same field overrides the first |
| EditPage.InputChangesCommute | admin/src/pages/Edit.jsx:71-77 | changes of two different fields commute |
| EditPage.HandleImageChange | admin/src/pages/Edit.jsx:80-85 | a slot changes only when a file was chosen, and takes the first file; other slots never change |
| EditPage.ToggleSize | admin/src/pages/Edit.jsx:88-95 | the size is listed afterwards exactly when it was not before; every other size keeps its membership |
| EditPage.ToggleKeepsOthersInOrder | admin/src/pages/Edit.jsx:91-93 | the sizes other than the toggled one keep their relative order |
| EditPage.ToggleKeepsDistinct | admin/src/pages/Edit.jsx:88-95 | a list without repeats keeps none |
| EditPage.ToggleAbsentTwice | admin/src/pages/Edit.jsx:88-95 | toggling an absent size twice restores the list |
| EditPage.TogglePresentTwice | admin/src/pages/Edit.jsx:88-95 | toggling a present size twice moves it, once, behind the others |
| EditPage.ToggleFormSize | admin/src/pages/Edit.jsx:88-95 | toggling changes only the size list of the form; the failure where the field holds no list is never reached on the page (`EditPage.FormKeepsSizeList`) |
| EditPage.FormKeepsSizeList | admin/src/pages/Edit.jsx:11-19 | the initial form, every fetched form and every form the updaters produce hold a size list, since no input is named "sizes", so toggling always succeeds |
| EditPage.SubmittedFlag | admin/src/pages/Edit.jsx:109 | the page sends "true" or "false", "true" exactly when the checkbox is ticked |
| EditPage.ClearedCheckboxKeepsBestseller | admin/src/pages/Edit.jsx:109 | clearing the checkbox and saving keeps the product a bestseller under the update as written, and clears it under the corrected one |
| OrderPage.FetchAllOrders | admin/src/pages/Order.jsx:11-30 | without a token nothing changes; a successful answer replaces the list by its orders or by the empty list; anything else keeps the list |
| OrderPage.FetchShowsAllOrders | admin/src/pages/Order.jsx:20-22 | loading from the admin listing shows every stored order exactly once, newest first |
| OrderPage.SetStatus | admin/src/pages/Order.jsx:44-48 | the list keeps its length and order; the orders with the id take the chosen label; every other order, and every other field, is unchanged |
| OrderPage.SetStatusIdempotent | admin/src/pages/Order.jsx:44-48 | applying the same label twice is applying it once |
| OrderPage.SetStatusLastWins | admin/src/pages/Order.jsx:44-48 | of two labels in a row the second remains |
| OrderPage.HandleStatusChange | admin/src/pages/Order.jsx:33-55 | only a successful answer updates the page; a refusal or a thrown error leaves the list unchanged |
| OrderPage.PageAgreesWithStoreIffNormalized | admin/src/pages/Order.jsx:46 | after an accepted change, the page and the store show the same status exactly when the chosen label is already first-upper-rest-lower |
| OrderPage.OutForDeliveryDiverges | admin/src/pages/Order.jsx:149 | choosing "Out for Delivery" shows that label on the page while the store keeps "Out for delivery" |
| OrderPage.DisplayStatus | admin/src/pages/Order.jsx:142 | a missing or empty status shows as "Order Placed"; any other is shown as stored |
| OrderPage.ConfirmedShowsOrderPlaced | admin/src/pages/Order.jsx:142 | a confirmed card order and an order with no status both show "Order Placed" |

## Left out

- The payment session. The session is a parameter, either an id or a failure. Amounts are whole numbers, so the conversion to pence, line items and redirect URLs are not modelled.
- The image host, and multer's file handling. Each upload is a function from a path to an optional URL.
- Token signing and verification, password hashing and comparison, and e-mail validation. All are parameters.
- Numeric coercion. Prices, amounts and quantities are whole numbers. A NaN id, a non-numeric id and the id text "0" are all modelled as the id 0. Likewise the amount text "0" is modelled as the amount 0 and refused by `placeOrder`, although the text is truthy there and passes the check at order-controller.js:61. Fractional amounts and prices are not modelled.
- Request fields are modelled as text. Non-text JSON values are not modelled, because `express.json()` alone parses the bodies and the handlers read the fields as text. Examples are a missing or numeric cart `size`, which `JSON.stringify` writes as `[null]` or `[42]`, a boolean `bestseller`, and a non-text `status`, which makes `charAt` throw.
- Case mapping covers ASCII letters only. Other characters are left as they are.
- JSON parsing covers lists of strings. It rejects `\u` escapes of lone surrogates. Valid JSON that is not such a list is treated like text that does not parse.
- Prisma itself is not modelled:
  - transactions and concurrency, including the read-then-write race in `addToCart`;
  - errors the database raises on its own;
  - the column defaults. The schema is not part of this model.
  - the product and user joins of the order listings.
- The model removes only the product row. The effect of foreign keys when a product that cart lines or orders refer to is deleted is not modelled.
- The order of equal dates or creation times in the sorted listings is not fixed.
- Accounts.RegisterUser: a second 400 after a first one is modelled as a throw that ends the handler. Everything else about how Express handles answers sent twice is left out.
- Accounts.RegisterFromBody: a missing e-mail after a blank field is taken to make Prisma's unique lookup throw, as the client library does for an undefined unique key. That library is not part of this model.
- Accounts.LoginUser: the successful answer has no `success` field, so its reply flag is false. The payload is modelled; the JSON envelope is not.
- Products.AddProduct: the 500 for a product the database refuses to create is not modelled.
- Products.UpdateProduct: form fields are always present. Prisma skips undefined fields, so a missing field leaving a column unchanged is not modelled.
- The `/update` route mounts no multipart parser. The path from the edit page's form data to `updateProduct` is therefore outside this model, beyond the flag text the page sends.
- Routing, the server, CORS, the database reset script, the admin list and user pages, and rendering, toasts and navigation in the admin panel.
- The effects of `fetchProductById` other than the form: the selected product, the toast and the navigation.

## Findings

| source | as written | input that shows it | evidently intended | confidence | as-written member | corrected member |
|---|---|---|---|---|---|---|
| backend/controllers/auth-controller.js:11-51 | each failing check answers 400 without returning, so with one failing check the handler goes on and creates the account | name "K", e-mail "k@x" (valid and unused), password "abc" | a failing check answers 400 and stops; no account is created | high; not executed | Accounts.RegisterWeakPasswordStillCreates | Accounts.RegisterUserChecked |
| backend/controllers/auth-controller.js:36-37 | the registration token's payload is `{ email }`, so `authUser` refuses it with "Invalid token: No user ID" | any successful registration, then a request with that token | the token names the new user's id, as the login token does | high; not executed | Accounts.RegisterTokenRejected | Accounts.RegisterCheckedTokenAdmitted |
| backend/controllers/product-controller.js:143 | `Boolean(bestseller)` is true for the text "false", which the edit page sends when the checkbox is cleared | update with `bestseller` = "false" | the flag is set only by "true", as `addProduct` reads it | medium, because the route does not yet parse the page's multipart body; not executed | Products.UpdateProductFalseIsTrue | Products.UpdateProductChecked |
