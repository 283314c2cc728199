# Shop orders: a Dafny model of the order store and the request handlers

The modelled application is a small multi-shop ordering site. A customer picks a shop and
gives a name. They add items to an order kept in their session, then submit it as one row
of the `orders` table or cancel it. A shopkeeper "logs in" with any shop id, sees that
shop's orders split into pending and confirmed, confirms orders and logs out.

The model keeps the state machine under the web framework:

- `OrderStore`: the `orders` table as a sequence of `Order` rows plus the next
  AUTOINCREMENT id. It covers `save_order`, `get_orders_by_shop` (the `WHERE shop_id=?
  ORDER BY id DESC` read, with items decoded) and `confirm_order`. `Evolves` states how
  the table may change over time.
- `ItemsCodec`: the `items` column. Items are joined with `,` on write and split on `,`
  on read, and empty text is read as no items.
- `Text`: Python's `str.strip()`, over exactly the characters `str.isspace()` accepts.
- `Decimal`: the order id as text. The dashboard prints it into a hidden form field, and
  the confirm route compares the posted text with the integer id column.
- `Web`: the session is an explicit value with three optional keys. `shopId` is one slot
  shared by both roles. The module also holds the pages a redirect names, the responses
  (`Redirect`, `BadRequest`, `Forbidden`, `Ok` with the data a page renders) and the
  handler outcome `Step`.
- `Customer` and `Shopkeeper`: one pure function per route body. Each takes
  (session, table, form fields) and returns (session, table, response).
- `App`: a dispatcher over requests, runs of requests, and the invariant that every
  reachable state keeps.
- `Scenarios`: worked examples of one order and what two shopkeepers can do with it.

Three behaviours of the code are stated as lemmas as written, and nothing in the model
corrects them:

- `ItemsCodec.CommaSplitsItem`: an item containing a comma reads back as several items.
  `ItemsCodec.RoundTrip` gives the exact condition under which an order's items survive
  being stored.
- `Shopkeeper.CrossShopConfirm`: the confirm route compares the posted shop with the
  session's shop, never with the shop of the row it confirms. So a shopkeeper of one
  shop can confirm another shop's order by posting its id.
- `App.SharedShopSlot`: the `shop_id` slot is shared by both roles. So a shopkeeper login
  in the middle of a customer's order moves that order to the shopkeeper's shop.

Three more behaviours of the code a reader might not expect:

- Adding an item does not require a started order. The item list is created on first
  use even without a shop or a name.
- The item round trip is not unconditional.
- A missing `shop_id` or `customer_name` key on start-order aborts the request. With the
  framework's debug mode off that is a 400, and it is modelled as `BadRequest`, the same
  as a blank value.

## Model

| member | source | states |
|---|---|---|
| Text.Trim | shiv.py:179-180 | the result is empty or starts and ends with a non-space character, and is no longer than the input |
| Text.TrimCharacterised | shiv.py:179-180 | `strip()` is the unique way to remove whitespace from both ends so that non-space characters are left at both ends |
| Text.TrimSplit | shiv.py:179-180 | what `strip()` removes is a whitespace prefix and a whitespace suffix of the input |
| Text.BlankIffAllSpace | shiv.py:181 | `not s.strip()` holds exactly when every character of `s` is whitespace |
| Text.TrimIdempotent | shiv.py:179-180 | stripping twice equals stripping once |
| Text.TrimStripped | shiv.py:185-187 | a non-blank input yields a non-empty value that a later strip leaves unchanged |
| ItemsCodec.Encode | shiv.py:141 | `','.join(items)` is empty exactly for no items or the single empty item, and starts with the first item |
| ItemsCodec.Split | shiv.py:154 | `split(',')` yields at least one piece, no piece holds a comma, and joining the pieces gives the text back |
| ItemsCodec.Decode | shiv.py:154 | the empty text reads as no items and only it does; re-encoding what was read gives the stored text back |
| ItemsCodec.RoundTrip | shiv.py:141-154 | reading back a stored item list gives the same list if and only if no item contains a comma and the list is not the single empty item |
| ItemsCodec.RoundTripPlainItems | shiv.py:141-154 | non-empty, comma-free items read back unchanged, and the empty list reads back empty |
| ItemsCodec.CommaSplitsItem | shiv.py:141-154 | the single item "tea,cake" is stored as "tea,cake" and read back as the two items "tea" and "cake" |
| Decimal.Show | shiv.py:83 | the template prints every id as a non-empty run of decimal digits |
| Decimal.Parse | shiv.py:162 | a posted id yields an id exactly when it is a non-empty run of decimal digits |
| Decimal.ParseShow | shiv.py:83 | the id the dashboard prints into the confirm form reads back as the same id |
| Decimal.ParsePadded | shiv.py:162 | an id written with any number of leading zeros, such as "007", yields the same id as its plain spelling |
| OrderStore.Save | shiv.py:137-142 | exactly one row is appended, pending, with the given shop and customer and the encoded items; its id exceeds every existing id; existing rows are unchanged and the invariant is kept |
| OrderStore.Select | shiv.py:147 | the result holds exactly the rows whose shop matches, in strictly decreasing id order |
| OrderStore.DecreasingUnique | shiv.py:147 | two strictly newest-first lists with the same rows are equal |
| OrderStore.SelectIsOrderedQuery | shiv.py:147 | any newest-first list of exactly the shop's rows equals the modelled query result |
| OrderStore.View | shiv.py:151-156 | an entry keeps its row's id, customer and status; its items are the column text split into comma-free pieces: none when the text is empty, and re-joining them gives the text back |
| OrderStore.OrdersByShop | shiv.py:144-157 | every row of the shop appears, decoded, and every entry decodes some row of the shop; entries are newest first |
| OrderStore.Confirm | shiv.py:159-163 | rows with the id become confirmed; no other row and no other field changes; rows are neither added nor removed |
| OrderStore.ConfirmSelected | shiv.py:159-163 | given the id the posted text parses to, if any: rows carrying that id become confirmed and every other row is unchanged, so text naming no id changes nothing; no row is added or removed, no other field changes, and the change is an allowed one |
| OrderStore.ConfirmValid | shiv.py:162 | confirming keeps the table's id invariants |
| OrderStore.ConfirmOneRow | shiv.py:162 | in a valid table confirming a row's id changes that row's status and nothing else |
| OrderStore.ConfirmIdempotent | shiv.py:162 | confirming twice is the same as confirming once |
| OrderStore.ConfirmAbsent | shiv.py:162 | confirming an id that no row carries leaves the table unchanged |
| OrderStore.EvolvesTransitive | shiv.py:124-163 | the allowed table changes compose: append-only, fields fixed, confirmed stays confirmed |
| Customer.StartOrder | shiv.py:177-189 | a missing or blank shop or name gives 400 with the session unchanged; otherwise the session holds the stripped shop and name and an empty item list; the table is untouched |
| Customer.OrderPage | shiv.py:191-198 | without a shop and a name the response redirects to shop selection; otherwise the page shows the session's shop, name and items (none if unset) |
| Customer.AddItem | shiv.py:200-207 | a non-blank item is appended stripped to the list, an unset list counting as empty; a blank or absent item changes nothing; shop, name and table never change |
| Customer.AddItemsAccumulate | shiv.py:202-206 | after a run of add-item posts the list holds its previous items (none if it was unset) followed by exactly the non-blank inputs, stripped, in posting order; it stays unset only if it was unset and every input was blank |
| Customer.AddAfterCancel | shiv.py:200-224 | after a cancel, a run of add-item posts starts a fresh list holding exactly the non-blank inputs, stripped, in order |
| Customer.ConfirmOrder | shiv.py:209-219 | a missing shop or name, or an empty item list, leaves session and table unchanged; otherwise one pending row with the session's shop, name and items is appended, and only the item list leaves the session |
| Customer.SubmittedItemsReadBack | shiv.py:216 | a submitted order whose items have no comma reads back with exactly those items |
| Customer.CancelOrder | shiv.py:221-224 | only the item list is removed; shop, name and table are kept |
| Shopkeeper.Login | shiv.py:232-238 | a blank or absent shop id gives 400 with nothing changed; otherwise only the session's shop slot changes, to the stripped id |
| Shopkeeper.WithStatus | shiv.py:246-247 | the filtered list holds exactly the entries with that status, and keeps newest-first order |
| Shopkeeper.StatusPartition | shiv.py:246-247 | the pending and confirmed lists together hold each order exactly as often as the full list |
| Shopkeeper.ViewOrders | shiv.py:240-251 | without a shop in the session the response redirects to login; otherwise the dashboard splits the shop's orders into pending and confirmed, each newest first |
| Shopkeeper.ConfirmRoute | shiv.py:253-262 | missing fields give 400 and a session shop other than the posted one gives 403, both with the table unchanged; otherwise the posted id is confirmed; the session never changes |
| Shopkeeper.Logout | shiv.py:264-267 | only the session's shop slot is cleared |
| Shopkeeper.ConfirmButton | shiv.py:82-86 | posting a row's confirm form with the session's shop confirms exactly that row |
| Shopkeeper.CrossShopConfirm | shiv.py:259-261 | a shopkeeper confirms a row belonging to a different shop |
| App.HandlePreserves | shiv.py:124-163 | every request keeps the session well formed and the table valid and populated, changes the table only as allowed, and adds at most one row, pending |
| App.RunPreserves | shiv.py:124-163 | every run of requests keeps the session well formed and the table valid and populated, changes the table only as allowed, and adds at most one row per request |
| App.SharedShopSlot | shiv.py:237 | after a shopkeeper login in the same session, a customer's submitted order is stored under the shopkeeper's shop |
| Scenarios.AliceOrders | shiv.py:177-219 | starting at "S1" as "Alice", adding "Tea" and "Cake" and submitting leaves one pending row and a session without items |
| Scenarios.AliceReadBack | shiv.py:144-157 | that row reads back for "S1" with items "Tea" then "Cake" |
| Scenarios.ShopOneSeesPending | shiv.py:240-251 | the "S1" dashboard lists the order as pending and nothing as confirmed |
| Scenarios.ShopOneConfirms | shiv.py:253-262 | confirming id "1" as "S1" flips that row to confirmed |
| Scenarios.ShopOneSeesConfirmed | shiv.py:240-251 | afterwards the dashboard lists it as confirmed and nothing as pending |
| Scenarios.ShopTwoRefused | shiv.py:259-260 | a shopkeeper of "S2" posting shop "S1" gets 403 and the table is unchanged |

## Left out

- Flask wiring: the app object, the route decorators, `redirect`/`url_for`, `app.run` and the secret key. Form fields are optional strings, and a redirect names a page.
- HTML templates and `render_template_string`: a 200 response carries only the data the template would render. The static pages (`/`, `/customer`, `/shopkeeper`) are not modelled.
- The text of the thank-you and error messages: a 200 carries the name and shop it interpolates, and errors carry only their status.
- SQLite connections, commits and `init_db`. The table is an immutable value with an explicit id counter. Only the `pending`/`confirmed` constraint is kept, as a datatype.
- Cookie-backed sessions and persistence across requests: the session is an explicit input and output of every handler.
- Concurrency between browsers: requests are applied one at a time.
- Decimal.Parse: SQLite's type affinity also converts text such as "+7", " 7" or "7.0" to an id. The model matches only plain digit strings, and treats other text as matching no row.
- Customer.StartOrder: a missing form key is modelled as a 400. With debug mode on, as the file's own entry point starts the app, the framework turns the missing key into a 500 with its debugger page. Session and table stay unchanged either way.
- OrderStore.Confirm: the `UPDATE` writes `status="confirmed"` with double quotes. It only sets the string because SQLite, finding no column of that name, reads the token as a string literal. SQLite builds that disable this fallback reject the statement, and nothing is confirmed; the model assumes the fallback.
- OrderStore.Valid: SQLite's 64-bit id limit is not modelled; ids are unbounded naturals.
