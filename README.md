# seabasket, modelled in Dafny

seabasket is an Express + Sequelize shop backend. Shoppers sign up, verify their e-mail
address with a one-time code, sign in for a JWT, and then fill a cart, order from it and
cancel orders. Sellers create, list, filter, update and delete their own products. This
project models the request handlers and the helpers they depend on:

- the shop controller: the cart, orders, filtering, search, categories and trending;
- the seller ("admin") controller;
- the account ("auth") controller;
- the authentication middleware;
- the JWT helper;
- the validation middleware and the DTOs it validates;
- the permission-map inversion helper.

The database is one `Store.Database` object. It has one `seq` of rows per table and one
autoincrement counter per table. `Valid()` states the invariants the schema and the
handlers together maintain:

- primary keys are distinct and below their counter;
- e-mail and mobile are unique;
- a user has at most one cart;
- a cart has at most one line per product;
- no user is marked unverified.

A handler that writes is a method with field frames (`modifies db`cartItems`). It
preserves `Valid()` and states its new tables as functions of the old ones. A handler that
only reads is a function. Sequelize's `findAll`, `findOne`, `update` and `destroy` are the
`Tables` primitives:

- `Where` (selection in table order);
- `FindFirst` (the first match in table order);
- `UpdateWhere` (an update of the matching rows).

Each handler's answer is an `Outcome`:

- `Reply(status, message)`: it writes a response;
- `Forward(status)`: it calls `next(err)` with that status;
- `Unanswered`: an exception escapes and nothing is written.

Inputs that lie outside the code are parameters:

- the clock (`now`);
- bcrypt (`hash`, `check`);
- the JWT wire format (`parse`);
- the JWT secret;
- validator.js's e-mail test (`isEmail`);
- class-validator's error list (`errorsOf`);
- the generated one-time code;
- whether a database lookup fails.

Where the code departs from what its names, messages and comments suggest, the model follows
the code:

- the admin handlers read status codes from `env.statuscode`, which configs/env.ts never
  defines, so they take these codes as an `Option` (see `Admin.Answer` and `Admin.Failure`);
- `sendOtp` does not await its user lookup, so it never answers 404;
- `verifyUser` compares the code with the oldest stored code for the address, not the
  latest one;
- `postOrder` clears the ordered products from every cart, not only from the ordering cart;
- rating and discount filters compare for equality, not as lower bounds;
- `@IsOptional()` lets `null` through as well as `undefined`, so a `null` field of a
  product or profile update reaches `Model.update`. It is rejected there, because every
  written column is `allowNull: false`, and the handler's catch block answers. A `null`
  mobile at sign-in becomes `mobile IS NULL`, which finds nobody (404);
- the cart-removal route has no validator, so a body without `productId` puts `undefined`
  into the `where` clause, which the ORM rejects (500);
- `verifyUser` writes `isVerified: true`, which is not a declared column of `User`. The
  ORM drops the value and, with only the timestamp left, issues no query, so no user is
  ever marked verified;
- a product update with none of the five written fields present (`{}`, or only
  `rating`) is answered "Product Updated!" but writes nothing, not even `updatedAt`.

## Model

| member | source | states |
|---|---|---|
| Tables.Where | src/modules/shop/shop.controller.ts:77-81 | `findAll` with a `where` clause: the result holds exactly the rows that satisfy the clause, in table order, and is no longer than the table |
| Tables.UpdateWhere | src/modules/shop/shop.controller.ts:236-243 | `update ... where`: same length; a matching row is replaced by its updated form and every other row is kept in place |
| Tables.FindFirst | src/modules/shop/shop.controller.ts:219 | `findOne`: None exactly when no row matches; otherwise the first matching row of the table |
| Http.Exchange.Next | src/middlewares/auth.middleware.ts:17 | `next()` is called once more |
| Http.Exchange.Send | src/middlewares/auth.middleware.ts:19 | exactly one response with the given status and error is written |
| Catalog.BuildFilter | src/modules/shop/shop.controller.ts:57-75 | a product passes the built filter iff the query selects it. The category counts only when it is non-empty, rating and discount are equality tests, and the price range counts only when both bounds are given |
| ShopCatalog.FilterProduct | src/modules/shop/shop.controller.ts:55-94 | the rows are exactly the products the query selects; the answer is 404 "No product found !" iff there are none |
| Strings.OccursShift | src/modules/shop/shop.controller.ts:105-107 | a pattern that is not a prefix occurs in a string iff it occurs in the string's tail |
| ShopCatalog.Contains | src/modules/shop/shop.controller.ts:105-107 | `LIKE '%t%'` on the title: true iff `t` occurs in the title as a contiguous substring |
| ShopCatalog.SearchProduct | src/modules/shop/shop.controller.ts:96-128 | a non-empty title selects exactly the products whose title contains it; otherwise a category selects exactly that category; no title and no category is an `undefined` in the `where` clause (500); 404 "No product found" iff nothing is selected |
| ShopCatalog.SearchFindsOwnTitle | src/modules/shop/shop.controller.ts:102-109 | searching for a product's full title finds that product and answers 200 |
| ShopCatalog.Categories | src/modules/shop/shop.controller.ts:132-141 | `GROUP BY category`: exactly the categories some product has, each once, at most one per product |
| ShopCatalog.GetCategoryList | src/modules/shop/shop.controller.ts:130-150 | the category list, with 404 "No categories found" iff there are no products |
| ShopCatalog.GetTrendingProducts | src/modules/shop/shop.controller.ts:152-173 | at most 10 rows, each rated 4 or more, newest `updatedAt` first, each a distinct row of the table (`multiset(rows) <= multiset(products)`); a qualifying product is left out only when 10 rows are listed that are all at least as new; 404 "No trending products found" iff none |
| ShopCart.AfterAddSpec | src/modules/shop/shop.controller.ts:229-253 | adding keeps the cart lines valid; afterwards the pair (cart, product) has exactly one line, holding the prior quantity (0 if none) plus the added one; every other line is unchanged |
| ShopCart.TotalStep | src/modules/shop/shop.controller.ts:197-199 | one more line whose product exists adds its quantity times its price to the running total |
| ShopCart.GetCart | src/modules/shop/shop.controller.ts:175-212 | the `forEach` total equals the sum of quantity × price over the caller's lines. A caller without a cart, or a line whose product is gone, forwards 500; an empty cart answers "cart is empty" |
| ShopCart.AddToCart | src/modules/shop/shop.controller.ts:214-261 | an unknown product or a caller without a cart gives 404 and no table changes; otherwise the lines become `AfterAdd` of the old lines (one line for the pair, with the summed quantity, others unchanged), the line counter advances only when a line is created, and 200 |
| ShopCart.RemoveItemFromCart | src/modules/shop/shop.controller.ts:263-286 | a caller without a cart forwards 500; a body without `productId` forwards 500 with nothing changed; a product with no line in the caller's cart gives 404 with nothing changed; otherwise exactly that line is destroyed |
| ShopOrders.PostOrder | src/modules/shop/shop.controller.ts:319-356 | one "confirmed" order for the caller; one order line per line of the cart, with the same product and quantity; then every cart line of an ordered product is destroyed, in any cart; answer 200 |
| ShopOrders.CreateDetails | src/modules/shop/shop.controller.ts:333-342 | the order lines appended are exactly `DetailsFor` the cart lines, with consecutive fresh ids; order-line ids stay distinct |
| ShopOrders.DestroyByProduct | src/modules/shop/shop.controller.ts:343-346 | the per-line `destroy({ where: { productId } })` leaves exactly the lines whose product is none of the ordered ones |
| ShopOrders.DestroyStep | src/modules/shop/shop.controller.ts:343-346 | one more `destroy` by product id equals clearing the enlarged set of product ids |
| ShopOrders.DetailsKeepQuantity | src/modules/shop/shop.controller.ts:333-342 | the order holds as many items as the cart it was placed from: the quantities of its lines sum to those of the cart lines |
| ShopOrders.DetailsMatchLines | src/modules/shop/shop.controller.ts:333-342 | the order lines match the cart lines one to one: the k-th has the order's id, the k-th line's product and its quantity |
| ShopOrders.ClearOrderedEverywhere | src/modules/shop/shop.controller.ts:343-346 | after the order, no cart holds a product of the ordered cart, and every line for another product survives |
| ShopOrders.OrderClearsOtherCarts | src/modules/shop/shop.controller.ts:343-346 | as written: a line of cart 2 for product 7 is destroyed when cart 1, which also holds product 7, is ordered |
| ShopOrders.ClearCartKeepsOtherCarts | src/modules/shop/shop.controller.ts:343-346 | the corrected clearing empties only the ordered cart; every other cart keeps its lines, in order |
| ShopOrders.CancelMarksOnlyThatOrder | src/modules/shop/shop.controller.ts:386-393 | cancelling marks the order with that id "cancelled", with `isCancelled` set, keeping its id and owner; every other order is unchanged |
| ShopOrders.CancelIdempotent | src/modules/shop/shop.controller.ts:386-393 | cancelling twice gives the same table as cancelling once |
| ShopOrders.GetOrderDetail | src/modules/shop/shop.controller.ts:382-418 | `action=cancel` cancels the order with that id, whoever owns it, and answers 200; any other action changes nothing and returns exactly that order's lines, plus its status if the order exists |
| Admin.Answer | src/modules/admin/admin.controller.ts:40 | a response whose status is read from `env.statuscode`: none at all when that object is absent |
| Admin.Failure | src/modules/admin/admin.controller.ts:141-146 | the catch block forwards `env.statuscode.internal_server_error`; with that object absent, nothing answers |
| Admin.CreateProduct | src/modules/admin/admin.controller.ts:9-29 | one product owned by the caller, with the next id, default rating and discount, and `updatedAt` = now; 201 "Product created!" |
| Admin.CreatedIsFoundByOwner | src/modules/admin/admin.controller.ts:14-22 | a product just created is the one its owner then reads by its id |
| Admin.OwnedByPrice | src/modules/admin/admin.controller.ts:34 | the caller's products ordered by price hold exactly the caller's rows, in ascending price |
| Admin.GetAllProducts | src/modules/admin/admin.controller.ts:31-47 | exactly the caller's products, as a permutation of them, in ascending price |
| Admin.GetProductDetail | src/modules/admin/admin.controller.ts:49-66 | at most one row; it is found iff a product with that id is owned by the caller; otherwise "No product found" |
| Admin.FilterProduct | src/modules/admin/admin.controller.ts:68-109 | the rows are exactly the caller's products the query selects; "No product found !" iff none |
| Admin.OwnedFilterIsShopFilter | src/modules/admin/admin.controller.ts:91-96 | the seller's filter gives, in the same order, the caller's rows of the shop's filter |
| Admin.OwnsSpec | src/modules/admin/admin.controller.ts:117-121 | the `findByPk` + owner gate opens iff a product with that id exists and belongs to the caller |
| Admin.ChangedKeepsTheRest | src/modules/admin/admin.controller.ts:123-136 | an update without `null` fields writes only the given fields: a set field takes its value, an absent one keeps the old value; id, owner, rating and discount stay; the timestamp is set to now when some field is given, and with no field given the row is left exactly as it was |
| Admin.UpdateProduct | src/modules/admin/admin.controller.ts:111-147 | a non-owner (or a missing product) is refused and no row changes. For the owner, a `null` field (a `NOT NULL` violation) gives the catch block's outcome with no row changed; otherwise "Product Updated!", and exactly the product with that id is updated when some field is given, while with no field given no row changes. The row count and every other row are unchanged |
| Admin.DeleteProduct | src/modules/admin/admin.controller.ts:149-168 | a non-owner is refused and nothing changes; for the owner exactly the product with that id is removed (one row fewer) |
| Admin.RemoveOne | src/modules/admin/admin.controller.ts:160 | deleting by a primary key that is present removes exactly one row |
| Jwt.SigningKey | src/helpers/jwt.helper.ts:5-7 | the signing key is the secret, "_" and the token version, so it never equals the bare secret |
| Jwt.Encode | src/helpers/jwt.helper.ts:5-7 | the token carries the claims given, signed with the versioned key |
| Jwt.Decode | src/helpers/jwt.helper.ts:9-18 | claims come back iff the token is non-empty, well formed and signed with the bare secret; `false` otherwise |
| Jwt.JustDecode | src/helpers/jwt.helper.ts:20-29 | the claims of any non-empty well-formed token, whatever its signing key |
| Jwt.EncodedNeverDecodes | src/helpers/jwt.helper.ts:5-18 | as written, `decode` rejects every token `encode` issues |
| Jwt.DecodeVersioned | src/helpers/jwt.helper.ts:9-18 | corrected `decode`: accepts only tokens signed with the versioned key |
| Jwt.EncodeDecodeVersioned | src/helpers/jwt.helper.ts:5-18 | with the versioned key, decoding what `encode` issued gives back its claims |
| Jwt.JustDecodeIgnoresKey | src/helpers/jwt.helper.ts:20-29 | `justDecode` accepts a token signed with any key |
| AuthGate.RemoveFirst | src/middlewares/auth.middleware.ts:10 | `replace("Bearer ", "")`: a header that starts with the prefix loses exactly the prefix; a header in which the pattern does not occur is unchanged |
| AuthGate.RemoveFirstAt | src/middlewares/auth.middleware.ts:10 | wherever the pattern first occurs, exactly that occurrence is cut out and the rest is kept |
| AuthGate.BareTokenAdmitted | src/middlewares/auth.middleware.ts:10-17 | a token sent without "Bearer " is decoded as it stands and admits the user it names |
| AuthGate.BearerStripped | src/middlewares/auth.middleware.ts:10 | "Bearer <token>" yields the token |
| AuthGate.Decide | src/middlewares/auth.middleware.ts:8-31 | a missing or empty header, a token that does not decode, a token without an `id` claim (`findByPk(undefined)` finds nothing) and an id that names no user are all 401; a failed lookup is 500; a user is admitted only if it exists and its id is the token's `id` claim |
| AuthGate.DecideByLookup | src/middlewares/auth.middleware.ts:13-20 | for a decodable token, the request goes on iff some user has the token's id, and is refused with 401 otherwise; a failing lookup is 500 |
| AuthGate.Auth | src/middlewares/auth.middleware.ts:8-31 | an admitted user is set as `req.user`, `next()` is called once and nothing is written; otherwise one 401/500 response is written and `next` is not called |
| AuthGate.ForgedTokenAdmitted | src/middlewares/auth.middleware.ts:10-17 | as written, a token signed with a key other than the server's still admits the user its id names |
| AuthGate.DecideVerified | src/middlewares/auth.middleware.ts:8-31 | corrected gate: a user is admitted only with a token signed with the issuing key and naming that user's id |
| AuthGate.ForgedTokenRefused | src/middlewares/auth.middleware.ts:10-17 | the corrected gate refuses a token signed with any other key (401) |
| AuthGate.IssuedTokenAdmitted | src/middlewares/auth.middleware.ts:10-17 | the corrected gate still admits the holder of a token the server issued |
| Auth.Taken | src/modules/auth/auth.controller.ts:27-29 | the `Op.or` lookup finds someone iff a user has the e-mail or the mobile |
| Auth.SignUp | src/modules/auth/auth.controller.ts:24-70 | a taken e-mail or mobile gives 400 and nothing is created; otherwise one user with the hashed password and then one cart for that user are created; 201 |
| Auth.SignIn | src/modules/auth/auth.controller.ts:72-107 | a token is issued only to an existing user with the right password, and carries exactly that user's id; an unknown user, or a `null` mobile without an e-mail, gives 404; a wrong password gives 401; no e-mail and no mobile gives 500 |
| Auth.SignInDecides | src/modules/auth/auth.controller.ts:78-100 | in a valid user table, the identified user gets a token for its id iff the password checks, and "Invalid password" otherwise |
| Auth.SignInNeverAsksToVerify | src/modules/auth/auth.controller.ts:88-90 | in a valid table the "verify first" branch is never taken |
| Auth.SignUpThenSignIn | src/modules/auth/auth.controller.ts:24-100 | a user just signed up signs in with its e-mail and password and gets a token for its id |
| Auth.SendOtp | src/modules/auth/auth.controller.ts:198-240 | the code is appended as a new row for the e-mail and earlier rows stay; 200. No e-mail forwards 500. An unknown e-mail is not refused |
| Auth.StoredOtp | src/modules/auth/auth.controller.ts:245 | the code compared is that of the first row for the e-mail, if any |
| Auth.FirstCodeIsStored | src/modules/auth/auth.controller.ts:229-232 | the first code sent to an e-mail is the one compared |
| Auth.ResentCodeIgnored | src/modules/auth/auth.controller.ts:229-247 | as written, sending another code leaves the compared code unchanged |
| Auth.LatestOtp | src/modules/auth/auth.controller.ts:245 | corrected lookup: the code of the most recent row for the e-mail |
| Auth.LatestCodeIsCompared | src/modules/auth/auth.controller.ts:229-247 | with the corrected lookup, the code just sent is the one compared |
| Auth.VerifyUser | src/modules/auth/auth.controller.ts:242-254 | no e-mail or no stored code: no answer and no change; a different code: 401 and no change; the stored code: all the e-mail's codes are removed, other e-mails' codes stay, no code for the e-mail is left to compare, 200. The user table is never written: the `isVerified` write names no declared column and is dropped |
| Auth.Clashes | src/modules/auth/auth.controller.ts:181-188 | the update fails on the unique indexes iff another user already has the new e-mail or mobile |
| Auth.UpdateProfile | src/modules/auth/auth.controller.ts:171-196 | an unknown caller gives 404 "Unauthorized"; a `null` field (a `NOT NULL` violation) or a clash forwards 500; in each case nothing changes. Otherwise only the caller's row gets the given fields; 200 |
| Auth.AtMostOneWithId | src/modules/auth/auth.controller.ts:176-187 | a primary key matches at most one user row |
| Auth.EditedKeepsUnique | src/modules/auth/auth.controller.ts:181-188 | without a clash, the edited row's e-mail and mobile belong to no other row |
| Permissions.Migrate | src/helpers/permissions.helper.ts:11-27 | the nested loops and the final `map` return exactly `Inverted(entries)` |
| Permissions.GrantRoles | src/helpers/permissions.helper.ts:15-20 | the inner loop records every role of one permission: lists are created on a role's first grant, permissions pushed in order, new roles appended to the key order |
| Permissions.InvertedMembers | src/helpers/permissions.helper.ts:11-27 | permission p is in role r's list iff r is listed for p in the input |
| Permissions.InvertedRoles | src/helpers/permissions.helper.ts:23-26 | each role appears once, and a role appears iff some permission lists it |
| Permissions.InvertedCount | src/helpers/permissions.helper.ts:11-27 | the lists hold as many permissions in total as the input lists roles; duplicates are kept |
| Permissions.InvertedOrder | src/helpers/permissions.helper.ts:14-21 | within a role, permissions appear in the order of the input's keys, repeated as often as the role is listed |
| Permissions.RoleOrderSpec | src/helpers/permissions.helper.ts:16-18 | the key order holds exactly the granted roles, each once |
| Permissions.InvertedEmpty | src/helpers/permissions.helper.ts:11-27 | an empty map gives an empty list |
| Validate.Merge | src/helpers/validate.ts:7-11 | the merged object has the keys of body, params and `_me`; a parameter overrides a body field, and `_me` overrides both |
| Validate.MeCannotBeForged | src/helpers/validate.ts:7-11 | a `_me` in the body or params is overwritten by the middleware's own value, and no other key depends on it |
| Validate.CreateInstanceFromJson | src/helpers/validate.ts:27-38 | every key of the JSON is copied unchanged; the instance's other properties keep their constructor values |
| Validate.Judge | src/helpers/validate.ts:13-22 | pass iff there are no errors; otherwise the first constraint message of the first error; an error without constraints throws |
| Validate.OnlyFirstErrorReported | src/helpers/validate.ts:16-18 | errors after the first never affect the answer |
| Validate.Validate | src/helpers/validate.ts:4-25 | with no error, `req.dto` is the built object and `next` is called once; on an error, one 400 response with the first message is written, `req.dto` is not set and `next` is not called |
| Dtos.Len | src/modules/auth/dto/create.dto.ts:21 | the length rules count characters without variation selectors: never more than the string's length, and exactly its length when it has no selector |
| Dtos.PasswordPatternSpec | src/modules/auth/dto/create.dto.ts:18-20 | the password pattern holds iff the password is one line with an ASCII digit, a lower-case letter, an upper-case letter, and a character outside [A-Za-z0-9] |
| Dtos.AheadOnOneLine | src/modules/auth/dto/create.dto.ts:18 | on one line, each `(?=.*X)` lookahead is a plain "contains X" |
| Dtos.PasswordRulesSpec | src/modules/auth/dto/create.dto.ts:16-22 | a password passes iff it is a non-empty string that matches the pattern and has length 6..255 |
| Dtos.SamePasswordRules | src/modules/auth/dto/reset-password.dto.ts:8-14 | reset and sign-up apply the same password rules, so a password passes one iff it passes the other |
| Dtos.CreateUserSpec | src/modules/auth/dto/create.dto.ts:4-28 | sign-up is valid iff: a non-empty name within its bound; a non-empty e-mail-shaped e-mail of at most 255 characters; a valid password; a non-empty mobile of at most 10 characters |
| Dtos.NameUnbounded | src/modules/auth/dto/create.dto.ts:7 | with the bound undefined, as the constants are written, any non-empty name passes |
| Dtos.ResetPasswordSpec | src/modules/auth/dto/reset-password.dto.ts:4-15 | a reset is valid iff the token is not "", null or undefined and the password passes |
| Dtos.CreateProductSpec | src/modules/admin/dto/create-product.dto.ts:4-34 | a title of 2..15 characters; non-empty image URL, description and category; a number price; rating and discount strings if present |
| Dtos.UpdateProductSpec | src/modules/admin/dto/update-product.dto.ts:4-34 | every property is optional; a present title has 2..15 characters, a present price is a number, the rest are strings |
| Dtos.CreateImpliesUpdate | src/modules/admin/dto/update-product.dto.ts:4-34 | every object valid for creating a product is valid for updating one |
| Dtos.EmptyUpdateValid | src/modules/admin/dto/update-product.dto.ts:4-34 | an empty update is valid, and so is a valid title alone |
| Dtos.UpdateDoesNotImplyCreate | src/modules/admin/dto/create-product.dto.ts:4-34 | the converse fails: the empty object updates but does not create |

## Left out

- Sequelize is not modelled: foreign keys, cascades, `createdAt`, attribute projections and
  `include` joins (a join is a lookup by id). SQL NULL appears where a handler reads it
  and where an update writes `null` into a `NOT NULL` column.
- Tables.FindFirst / Auth.StoredOtp: a `findOne` without `ORDER BY` is taken to return the
  oldest (first inserted) match, the first in table order here. SQL does not promise this.
  PostgreSQL, the configured dialect (src/configs/db.ts:4), returns rows in heap-scan
  order, which follows insertion only until the space of deleted rows is reused, and
  `verifyUser`'s `Otp.destroy` deletes rows. Only `Auth.StoredOtp` (and the one-time-code
  finding built on it) depends on this, so that finding is plausible rather than certain. Every other
  use of `FindFirst` either looks up a key that `Valid()` makes unique (user, cart,
  product and order ids, a user's email or mobile, a cart's owner, a cart line's (cart,
  product) pair) or only asks
  whether a match exists (`Taken`, `Clashes`).
- Concurrency is not modelled. `Promise.all` in `postOrder` runs its creates and destroys
  in sequence here. Read-then-write races between requests are absent.
- Express wiring is not modelled (routes, the error handler, the pager middleware), and
  neither is the JSON shape of each body beyond status and message.
- E-mail and SMS sending (nodemailer, Twilio) are left out; they produce no table change.
- Admin.CreateProduct: the catch block's use of `env.statuscode` is not modelled, because
  the model's `Product.create` never fails.
- Auth.SignUp: the 201 response is sent before the cart is created. A failure after that
  point (cart, e-mail, SMS) would call `next(err)` on an answered request. The model
  assumes these calls succeed.
- Jwt.Encode: the `iat` claim and the compact wire format are left out. The wire format
  is the `parse` parameter, so a token is its claims and its signing key.
- Auth.SignIn: bcrypt is the `check` parameter, and its salt and cost are not modelled.
- ShopCatalog.Contains: `LIKE` wildcards inside the search text (`%`, `_`) and database
  collation (case folding) are not modelled; the text is matched literally.
- ShopCatalog.Categories: the row order of `GROUP BY` is not specified by SQL. The model
  lists categories in first-appearance order.
- ShopCatalog.GetTrendingProducts: the order among rows with equal `updatedAt` is left
  open. The contract states only the descending order and the limit.
- DECIMAL columns are integers. `Op.between` on decimal strings and the number parsing
  of query strings are not modelled.
- ShopCart.AddToCart: quantities are integers. `CartDto` checks `quantity` only with
  `@IsNumber()`, so a fractional quantity passes validation and is added in JavaScript
  before the INTEGER column receives it. How the database rounds or refuses it is not
  modelled.
- ShopCart.RemoveItemFromCart: a `productId` that is `null` or a string is not modelled.
  Only an absent one (500) and a number are.
- Dtos.Holds: `isNumber` is modelled as "a JSON number"; NaN and infinities cannot occur
  in parsed JSON. `isEmail` is the parameter `isEmail`.
- Validate.Judge: the order of class-validator's errors and of the constraints inside an
  error is library behaviour, so `errorsOf` is a parameter.
- The shop's getShop and getProductDetail, postReviews, getOrders, forgotPassword and
  resetPassword are outside this model. They are reads or use the same primitives as the
  handlers modelled here.
- The DTOs with one or two presence checks (sign-in, profile, verification, filter, cart,
  order, review) are not modelled.
- Admin.GetAllProducts: its "No products found!" branch and updateProduct's "Failed to
  update product" branch are not modelled: `findAll` and `update` always yield arrays, so
  neither branch can be taken.
- Auth.VerifyUser: `isVerified` is kept on the user row as an `Option` that stays None,
  since the only write to it is dropped; a later schema that declares the column, and so
  would store the write, is not modelled.
- Permissions.Migrate: role names that are inherited properties of a plain object
  (`constructor`, `toString`, `__proto__`) are not modelled. They make `!rolePermissions[role]`
  false on the first grant, or assign the prototype. Integer-like role names, which
  `Object.keys` lists first, are not modelled either.
- Validate.CreateInstanceFromJson: a `__proto__` key in the body is not modelled, and
  neither are inherited enumerable properties of the merged object.
- Validate.Validate: the DTO classes declare fields without initialisers, so the
  constructor's properties are a parameter `defaults`.

## Findings

| source | as written | input that shows it | evidently intended | confidence | as-written member | corrected member |
|---|---|---|---|---|---|---|
| src/helpers/jwt.helper.ts:5-18 | `encode` signs with `${JWT_SECRET}_v1`, but `decode` verifies against the bare `JWT_SECRET` | any token `encode` issues, e.g. for claims `{ id: 1 }` | verify with the same versioned key, so decoding an issued token gives back its claims | high (not executed) | Jwt.EncodedNeverDecodes | Jwt.EncodeDecodeVersioned |
| src/middlewares/auth.middleware.ts:10-17 | the middleware uses `justDecode`, which does not check the signature, and admits the user the `id` claim names | a token `{ id: <an existing user's id> }` signed with any key other than the server's | check the signature with the issuing key and refuse a forged token with 401 | high (not executed) | AuthGate.ForgedTokenAdmitted | AuthGate.ForgedTokenRefused |
| src/modules/auth/auth.controller.ts:229-247 | `sendOtp` appends a new row per code, and `verifyUser` compares with `findOne({ where: { email } })`, the first row for the address | send a code twice to the same address, then submit the second code: 401 | compare with the latest code sent | medium (not executed; rests on PostgreSQL returning the older row first, which heap-scan order gives until deleted space is reused) | Auth.ResentCodeIgnored | Auth.LatestCodeIsCompared |
| src/modules/shop/shop.controller.ts:343-346 | `postOrder` destroys cart lines `where: { productId }` with no cart condition | cart 1 and cart 2 both hold product 7; ordering cart 1 also empties cart 2's line for product 7 | destroy only the ordering cart's lines | high (not executed) | ShopOrders.OrderClearsOtherCarts | ShopOrders.ClearCartKeepsOtherCarts |
