# A verified model of the e-commerce backend's core

This project models the request-handling logic of `backend/server.js`, an
Express and MongoDB shop backend. It covers four pieces and proves what each
one does:

- **Order placement** (`POST /api/orders`). The handler walks the requested
  items in order. For each item it looks the product up, checks the stock,
  adds `price * quantity` to the total, records a snapshot of the product and
  writes the reduced stock back at once. Only when every item passes does it
  create one order with status `"pending"`. The model keeps the handler's
  edges:
  - there is no rollback: an item that fails leaves the earlier writes in
    place;
  - a repeated product id sees the stock the earlier item left;
  - quantities are not validated: a negative quantity passes the check and
    raises the stock.

  Prices are integer cents. `Orders.Shop` holds the product table (a map from
  id to product) and the stored orders. Its `PlaceOrder` method has the
  handler's loop and is proved against the specification function
  `Orders.Run`. Lemmas about `Run` state the stock, detail, total, abort and
  non-negativity properties.
- **Registration and login** (`POST /api/register`, `POST /api/login`).
  `Auth.UserTable` holds the user collection and a counter for fresh ids.
  `Register` refuses an email already stored and otherwise adds exactly one
  user. `Login` gives one generic error for an unknown email and for a wrong
  password. bcrypt and JSON Web Tokens are foreign code, so they are symbolic
  terms here:
  - a hash is `Digest(cost, salt, password)`;
  - a signed token is `Jwt(claims, secret, lifetime)`;
  - verifying a token is a function the caller passes in.

  The random salt is a parameter. `Register`, `Login` and `Authenticate` take
  the signing key as a `secret` parameter, which stands for
  `SigningSecret(JWT_SECRET)`. `Auth.SigningSecret` models the `JWT_SECRET ||
  'your-secret-key'` fallback: an unset or empty setting gives the fixed key.
- **The bearer-token check** (`authenticateToken`). The token is the second
  field of the `Authorization` header split on spaces. A missing header, a
  missing field or an empty field gives "Access token required", and the
  verifier is not consulted.
- **The `.env` diagnostic** run at start-up. The file is split on newlines and
  each line is trimmed. Blank lines and `#` comments are skipped. A line with
  `=` is a variable: its key is the trimmed text before the first `=`, and its
  value is the trimmed rest re-joined on `=`. Any other line is malformed. The
  variables are counted.
  - `JsStrings` models the JavaScript built-ins this code uses: `trim` with
    the ECMAScript white-space and line-terminator set, `indexOf`/`includes`,
    `split` on one character and `join`.
  - `EnvAnalysis.AnalyzeEnv` has the `forEach` loop and its counter.
    `EnvAnalysis.AnalyzeLine` is the per-line callback.

Two behaviours are modelled as the code has them, not as a stricter design
would have them:
- The middleware does not check that the scheme word is `Bearer`. Any first
  word is accepted.
- The order loop is not atomic. A validate-then-commit design would write
  nothing when an item fails; this code keeps the writes it has already made.
  `Orders.RunAborted` states exactly which writes survive a failure.

## Model

| member | source | states |
|---|---|---|
| JsStrings.Trim | backend/server.js:29 | The result has no white space at either end, and only white space was removed: it is the input between the first and the last non-white-space character. |
| JsStrings.TrimExact | backend/server.js:29 | Trimming white space + a trimmed core + white space gives exactly the core. |
| JsStrings.TrimIdempotent | backend/server.js:29 | Trimming a trimmed string changes nothing. |
| JsStrings.IndexOf | backend/server.js:33 | There is no result exactly when the character does not occur. Otherwise the result is a position holding the character, with no occurrence before it. |
| JsStrings.Split | backend/server.js:25 | `split` on one character gives at least one piece, and no piece contains the separator. |
| JsStrings.JoinSplit | backend/server.js:34-36 | Joining the pieces of a split on the same separator gives the original string back. |
| JsStrings.SplitAtFirst | backend/server.js:34-36 | The first piece is the text before the first separator, and the other pieces re-joined are exactly the text after it. |
| EnvAnalysis.ClassifyLineMeaning | backend/server.js:29-33 | A line is classified as a variable exactly when, once trimmed, it is non-empty, does not start with `#` and contains `=`. |
| EnvAnalysis.KeyValue | backend/server.js:34-36 | The handler's split/slice/join key and value are the trimmed text before the first `=` and the trimmed text after it. |
| EnvAnalysis.AnalyzeLine | backend/server.js:29-41 | The per-line callback classifies the line as skipped, malformed or a variable with the key and value above. |
| EnvAnalysis.AnalyzeEnv | backend/server.js:25-45 | The counter equals the number of variable lines of the file, and the reported entries are those of the line-by-line classification, in order. |
| EnvAnalysis.CountedAreVariableLines | backend/server.js:30-38 | The lines counted are exactly those that, trimmed, are non-empty, not comments and hold `=`. |
| EnvAnalysis.EntriesSound | backend/server.js:31-37 | Every reported entry names, by its 1-based number, a line classified as exactly that key and value. |
| EnvAnalysis.EntriesComplete | backend/server.js:31-37 | Every line classified as a variable has its entry. |
| EnvAnalysis.EntriesIncreasing | backend/server.js:28 | Entries follow the order of the lines. |
| EnvAnalysis.CountedIsEntries | backend/server.js:37-38 | Each variable is counted once and reported once. |
| EnvAnalysis.ReportMeaning | backend/server.js:25-45 | The count is the number of entries; the entries are exactly the variable lines, each with its own key and value, in file order. |
| Auth.SigningSecret | backend/server.js:243 | The key is never empty. A configured non-empty secret is used; an unset or empty setting gives the fixed fallback `"your-secret-key"`. |
| Auth.IssueSession | backend/server.js:241-251 | The token is signed with the given key, carries the user's id and email as claims and has a 24-hour lifetime; the returned user record is id, name and email, without the hash. |
| Auth.FindByEmail | backend/server.js:232 | A result is a stored user with that email; there is no result exactly when no stored user has it. |
| Auth.FindByEmailUnique | backend/server.js:262 | With unique emails, the lookup returns the one user that has the email. |
| Auth.Login | backend/server.js:258-286 | Every failure is "Invalid credentials". Login succeeds exactly when a user with the email exists and the password matches that user's hash. The session then names that stored user. |
| Auth.LoginAcceptsStoredCredentials | backend/server.js:262-282 | With unique emails, logging in with a stored user's email succeeds exactly when the password matches that user's hash, and yields that user's session. |
| Auth.CompareHash | backend/server.js:237 | A stored hash accepts exactly the password it was made from. |
| Auth.AddKeepsEmailsUnique | backend/server.js:232-239 | Adding a user whose email is not stored keeps emails unique. |
| Auth.UserTable.Register | backend/server.js:228-255 | A stored email gives "User already exists" and leaves the table unchanged. Otherwise exactly one user is appended, with the hashed password and a fresh id, and that user's session is returned. Email and id uniqueness are preserved, and a login with the same credentials afterwards returns the same session. |
| Auth.BearerToken | backend/server.js:209-212 | A token, when found, is non-empty and contains no space. |
| Auth.BearerTokenOfHeader | backend/server.js:209-210 | A header made of a word, one space, then the token, followed by nothing or by a space, yields that token. |
| Auth.BearerTokenShape | backend/server.js:209-210 | Conversely, a token found is the text between the first space and the next space or the end of the header. |
| Auth.Authenticate | backend/server.js:208-223 | "Token required" exactly when no token is found. "Authorized" carries what the verifier decoded. "Invalid token" means the verifier rejected the token. |
| Auth.MissingTokenSkipsVerify | backend/server.js:209-214 | Without a header, or with a header that has no space, the outcome is "token required" for every verifier. |
| Orders.Withdraw | backend/server.js:311-323 | The write-back sets the item's product's stock to its old stock less the quantity, keeps its name and price, and changes no other product. The stock it writes is never negative, and it does not rise exactly when the quantity is non-negative. |
| Orders.RunCompletedStock | backend/server.js:306-324 | After a completed loop, each product's stock has fallen by exactly the total quantity requested of it, a repeated id counted each time. Nothing else changes. |
| Orders.RunCompletedDetails | backend/server.js:315-320 | After a completed loop the details hold one snapshot per item, in request order. Each snapshot has the item's id and quantity and the product's name and price. |
| Orders.RunKeepsDetails | backend/server.js:304-320 | The loop only appends to the details, one per item. |
| Orders.RunDetailAt | backend/server.js:315-320 | The detail appended for item `k` is that item's snapshot of the initial table. |
| Orders.RunCompletedTotal | backend/server.js:303-314 | The running total stays equal to the sum of `price * quantity` over the lines recorded, taken in order. |
| Orders.RunCompletesIff | backend/server.js:306-324 | The loop reaches the end exactly when every item's product exists, and its quantity is covered by the initial stock less what earlier items took of the same product. |
| Orders.RunAppend | backend/server.js:306-324 | Running two lists of items in a row is running the first and, if it completed, the second from where it stopped. |
| Orders.RunAborted | backend/server.js:307-313 | At the failing item the result is that item's error. The table keeps every write of the earlier items. The failing product and the products requested only later keep their stock. |
| Orders.RunAbortsSomewhere | backend/server.js:306-313 | A loop that aborts stops at an item whose predecessors all succeeded and which fails. |
| Orders.UnknownProductAborts | backend/server.js:307-310 | An unknown product id aborts with "not found", whatever follows it. |
| Orders.RunKeepsNonNegative | backend/server.js:311-323 | Stock that starts non-negative stays non-negative, whether the loop completes or aborts. |
| Orders.PlacedOrder | backend/server.js:326-337 | A successful placement creates an order with status "pending" for the user. Its lines copy each item's id and quantity and the product's price, in request order. Its total is the sum of `price * quantity` over those lines. Every stock has fallen by the quantity requested of it. |
| Orders.RepeatedIdSeesReducedStock | backend/server.js:307-323 | 3 and then 3 of a product with stock 5 fail at the second item, with the first write kept: stock 2. |
| Orders.NegativeQuantityRaisesStock | backend/server.js:311-323 | A quantity of -4 passes the check, raises the stock from 5 to 9 and makes the total negative. |
| Orders.SingleItemWithinStock | backend/server.js:306-324 | 2 of a product priced 1299.99 with stock 30 give a total of 2599.98 and leave stock 28. |
| Orders.Shop.PlaceOrder | backend/server.js:299-352 | The handler's loop. The new table and the result are those of `Run` from the old table. On success exactly one order, pending, is appended, its total is the amount of its lines and every stock has fallen by the quantity requested. On failure the error is returned and no order is stored. Non-negative stock stays non-negative. |

## Left out

- I/O and plumbing are not modelled: reading the `.env` file (`fs.existsSync`, `readFileSync`), `dotenv`, every `console.log`, Express routing, CORS, JSON body parsing and HTTP status codes. Handlers return result datatypes instead of HTTP responses.
- Auth.CompareHash: the hash is ideal, so it accepts no password but its own. Real bcrypt reads only the first 72 bytes, and so it also accepts a longer password that shares that prefix.
- Orders.Shop.PlaceOrder: quantities and stock are integers. A fractional JSON quantity is not modelled: `0.5` passes the `stock < quantity` check too and leaves a fractional stock. The same holds for `Orders.Run` and the lemmas about it.
- bcrypt and JSON Web Tokens are not modelled; they are symbolic terms. The hash is ideal and collision-free. Salts come in as a parameter. Token verification, including its expiry check, is a function parameter.
- The MongoDB driver is not modelled. Collections are in-memory values, and document ids are a counter for users and strings for products. No ObjectId cast errors are modelled: a malformed id would give 500, not "not found". Product lookup is exact string equality, so requested ids are taken to be spelled the way the stored ids are. The source converts a requested id to an ObjectId first, so it also finds a product under, say, an upper-case spelling of its hex id.
- A race on the database's unique email index is not modelled.
- Creation timestamps and the order response's `toObject()` spread are not modelled.
- The order confirmation email is outbound I/O whose failures are swallowed, so it is not modelled.
- The user lookup after the order is saved is not modelled. It is a read whose only failure, a missing user, turns into a 500 after the order and stock writes have already happened.
- Orders.Shop.PlaceOrder: the id stored in each detail is the requested id. The source stores the found product's `_id`, which names the same product.
- Request bodies of the wrong JSON type cannot be represented, and floating-point prices are not modelled:
  - a non-array `products` or a non-numeric quantity;
  - `NaN` totals;
  - prices are integer cents rather than JavaScript numbers.
- Listing products and orders (`GET /api/products`, `GET /api/orders`), the health route and the seed routes and script are reads or fixed data inserts, so they are not modelled.
- Concurrent requests are not modelled: each placement runs alone, as one call on the shop. The lost update between two orders for the same product therefore does not arise.
