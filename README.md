# Personal finance ledger — a Dafny model

This project models the core of a personal finance app. The app has two parts:

- **The Express server** (`server/index.js`). It keeps users, their income and expense categories, and their transactions in three Postgres tables. It answers the routes `/register`, `/login`, GET/POST `/transactions`, DELETE `/transactions/:id`, GET/POST `/categories` and PUT/DELETE `/categories/:id`. Every route except the first two goes through the `authenticateToken` middleware.
- **The React client's list updaters.** These are the transaction list in `context/TransactionContext.tsx` and the category list in `context/CategoryContext.tsx`.

Modules:

- `SeqUtil` (seq_util.dfy) holds the sequence vocabulary used everywhere:
  - `Filter`, `Map` and `Reverse`;
  - `Subseq`, meaning "keeps relative order";
  - `Chained`, a pairwise ordering used for table invariants;
  - the JavaScript `split`.
- `Crypto` (crypto.dfy) stands in for bcrypt and JSON Web Tokens. Each is an encoding with a checking function: the hash keeps the first 72 characters of the password, as bcrypt does, and the token encodes the user id.
- `Auth` (auth.dfy) is `authenticateToken`. It reads the raw `Authorization` header and decides between 401, 403 and running the handler for a user id.
- `Tables` (tables.dfy) covers the database:
  - the row types;
  - every SQL statement as a function on a table, which is a sequence of rows in insertion order;
  - the invariants the table constraints give: serial ids, unique emails, categories unique per `(user_id, name)`, and timestamps that grow with insertion;
  - the eight default categories.
- `Server` (server.dfy) is a class `Database` with the tables as fields and one method per route. Each method:
  - requires and keeps `Valid()`;
  - modifies only the tables its SQL writes;
  - states its response and the new tables for every branch of the handler.
- `TransactionContext` (transaction_context.dfy) holds the two pure updaters `addTransaction` and `deleteTransaction`.
- `CategoryContext` (category_context.dfy) holds two things:
  - the three pure updaters: add then sort by name, replace by id, filter by id;
  - a class `CategoryStore`. Its fields `categories` and `isLoading` are the provider's state. Its methods sequence the no-session guards, the ok/non-ok branches and the loading flag. The server's answer is a parameter. `addCategory` and `updateCategory` return an `Outcome`: a resolved boolean, or a rejected promise.

Where the prose description of the app and the code disagree, the model follows the code:

- Registering an email that is already in use answers **400**, not 409 (server/index.js:57-58).
- POST /transactions validates nothing. The owner is always the authenticated caller (server/index.js:111-116).
- Deleting a category first deletes the transactions whose `category` equals the category's name, **for every user**. The statement has no `user_id` filter (server/index.js:236).
- There are no routes to change a user's email or password.
- The category `type` is not checked against `'receita' | 'despesa'` on the server. The model keeps it as a string.

## Model

| member | source | states |
|---|---|---|
| Crypto.CheckPasswordOfHash | server/index.js:78 | `bcrypt.compare` of an attempt against a hash made at lines 49-50 succeeds exactly when the attempt and the hashed password have the same first 72 characters |
| Crypto.CheckShortPassword | server/index.js:78 | for passwords of at most 72 characters, `bcrypt.compare` succeeds exactly when the attempt is the hashed password |
| Crypto.LongPasswordsCollide | server/index.js:78 | a password longer than 72 characters is accepted for any attempt longer than 72 characters with the same first 72 characters |
| Crypto.VerifySigned | server/index.js:28-29 | a token verifies to user id `id` exactly when it is the token signed for `id`. |
| Crypto.ParseDecimalOfDecimal | server/index.js:83 | the numeric `userId` payload is recovered unchanged from the token |
| Auth.ExtractToken | server/index.js:25-27 | an absent header gives no token, an empty header gives the empty token, and a token taken from a non-empty header holds no space |
| Auth.ExtractTokenMissing | server/index.js:26-27 | a present header gives no token (so 401) exactly when it is non-empty and has no space, i.e. no second word |
| Auth.ExtractSecondWord | server/index.js:26 | the token is the word right after the first space, whatever follows it |
| Auth.AuthenticatedIffSigned | server/index.js:24-31 | the handler runs for `userId` exactly when the header's second word is the token signed for `userId` |
| Auth.RejectionStatus | server/index.js:27-29 | a missing token is answered 401 and a token that fails verification 403, and nothing else |
| Auth.BearerHeaderAuthenticates | context/CategoryContext.tsx:35 | the header the client sends, `Bearer <token from login>`, authenticates as the user the token was issued to |
| Server.Rejection | server/index.js:27-29 | a rejected request is answered 401 or 403 |
| Tables.UsersWithEmailUnique | server/index.js:72-76 | in a valid users table the email lookup returns at most one row, returns none exactly when no user has the email, and returns a stored user with that email |
| Tables.InsertUserValid | server/index.js:51-58 | inserting an email not in use, with the next serial id, keeps ids serial and emails unique |
| Tables.SelectTransactionsSpec | server/index.js:99-101 | the listing holds exactly the caller's rows, in strictly decreasing timestamp order |
| Tables.InsertTransactionValid | server/index.js:114-116 | a row with the next id, stamped by the clock, keeps ids and timestamps increasing |
| Tables.DeleteTransactionRowsSpec | server/index.js:129-133 | the delete by id and owner removes nothing when no row matches, and otherwise exactly one row, which is the only match |
| Tables.DeleteTransactionValid | server/index.js:129-132 | the delete by id and owner keeps the transactions table valid |
| Tables.CascadeRowsSpec | server/index.js:236 | a NULL subquery name removes nothing; a name removes every row with that category, of any user, and keeps the rest in order; the table stays valid |
| Tables.MatchingCategoriesAtMostOne | server/index.js:238-243 | at most one category matches an id and owner, and none matches exactly when no row has both |
| Tables.RenameRowsSpec | server/index.js:210-213 | the update changes only the name of the row matching id and owner, in place, keeping its id, owner and type; other rows are identical; the table stays valid when no other row of the user has the name; the returned row is the renamed match |
| Tables.DeleteCategoryRowsSpec | server/index.js:238-241 | the delete removes just the matching row, keeps the others in order, changes nothing when nothing matches, and keeps the table valid |
| Tables.InsertCategoryValid | server/index.js:184-192 | inserting a name the user does not yet have keeps ids serial and `(user_id, name)` unique |
| Tables.SeedRows | server/index.js:149-154 | the defaults are eight rows of the user with consecutive new ids, six `despesa` then two `receita`, all names distinct |
| Tables.SeedRowsSpec | server/index.js:155-161 | seeding a user without categories keeps the table valid, gives the user exactly the eight defaults, and changes no other user's categories |
| Server.Database.Register | server/index.js:42-63 | empty email or password gives 400 with no change; an email in use gives 400 with no change; otherwise exactly one user is appended with the hashed password and only `{id, email}` is returned, 201; the users invariant is kept |
| Server.Database.Login | server/index.js:65-89 | empty fields give 400; success (200) happens exactly when some user has the email and the password matches their hash; any other outcome is the same 401 and message; on success the token verifies to that user's id and the body is `{id, email}`; no table is written |
| Server.Database.ListTransactions | server/index.js:97-108 | a rejected header gives 401/403; otherwise 200 with exactly the caller's transactions, newest first; no table is written |
| Server.Database.AddTransaction | server/index.js:111-123 | a rejected header changes nothing; otherwise exactly one row is appended, owned by the authenticated caller, with the body's fields unvalidated, the next id and the current timestamp, and it is returned with 201 |
| Server.Database.DeleteTransaction | server/index.js:126-141 | a rejected header changes nothing; no row with that id and owner gives 404 and an unchanged table; otherwise 200 and exactly that one row is gone, with the remaining rows, other users' included, kept in order |
| Server.Database.ListCategories | server/index.js:144-168 | a rejected header changes nothing; a caller without categories gets the eight defaults inserted and returned; a caller with categories changes nothing and gets their rows, so a second call is a no-op; afterwards the caller has categories and no other user's categories changed |
| Server.Database.SeedDefaults | server/index.js:155-160 | the loop appends the eight defaults, one insert per default, advancing the serial by eight |
| Server.Database.AddCategory | server/index.js:175-197 | a rejected header changes nothing; an empty name or type gives 400; a name the caller already has gives 409 with no change; otherwise one row of the caller is appended and returned with 201 |
| Server.Database.RenameCategory | server/index.js:200-226 | a rejected header changes nothing; an empty name gives 400; no row with that id and owner gives 404 with no change; another of the caller's rows having the name gives 409 with no change; otherwise only that row's name changes, in place, and the renamed row with its old type is returned |
| Server.Database.DeleteCategory | server/index.js:229-251 | a rejected header changes nothing; a category the caller does not own gives 404 and changes neither table; otherwise 200, the category row is removed, and so is every transaction of any user whose category is its name, and nothing else |
| TransactionContext.AddTransaction | context/TransactionContext.tsx:15-22 | the list grows by one; the head carries the supplied id, timestamp, description, amount, type and category; the tail is the previous list |
| TransactionContext.DeleteTransaction | context/TransactionContext.tsx:24-28 | no element with the id remains, every other element does, and the list never grows |
| TransactionContext.DeleteKeepsOrder | context/TransactionContext.tsx:26 | the remaining elements keep their relative order |
| TransactionContext.DeleteAbsent | context/TransactionContext.tsx:26 | deleting an absent id leaves the list unchanged |
| TransactionContext.DeleteIdempotent | context/TransactionContext.tsx:26 | deleting twice equals deleting once |
| TransactionContext.DeleteShrinksIffPresent | context/TransactionContext.tsx:26 | the list gets shorter exactly when some element has the id |
| TransactionContext.DeleteUndoesAdd | context/TransactionContext.tsx:15-28 | with a fresh id, deleting the transaction just added restores the previous list |
| CategoryContext.NameLeTotal | context/CategoryContext.tsx:57 | the name comparator orders any two names |
| CategoryContext.NameLeTransitive | context/CategoryContext.tsx:57 | the name comparator is transitive |
| CategoryContext.NameLeAntisymmetric | context/CategoryContext.tsx:57 | names that compare both ways are equal |
| CategoryContext.InsertByName | context/CategoryContext.tsx:57 | inserting into a sorted list gives a sorted permutation of the list plus the entry |
| CategoryContext.SortByName | context/CategoryContext.tsx:57 | `sort` by name gives a sorted permutation of its input |
| CategoryContext.SortSorted | context/CategoryContext.tsx:57 | sorting a list already sorted by name leaves it unchanged |
| CategoryContext.WithAdded | context/CategoryContext.tsx:57 | after a successful add the list is one longer, a permutation of the previous list plus the new category, and sorted by name |
| CategoryContext.WithAddedToSorted | context/CategoryContext.tsx:57 | when the previous list was sorted, the add inserts the new category in place and keeps every other entry's order |
| CategoryContext.WithReplaced | context/CategoryContext.tsx:75 | after a successful update the list has the same length; entries with the returned id are replaced by it, and every other entry is identical and in the same position |
| CategoryContext.WithReplacedLaws | context/CategoryContext.tsx:75 | replacing twice equals replacing once, and replacing an id no entry has changes nothing |
| CategoryContext.WithoutCategory | context/CategoryContext.tsx:95 | after a successful delete no entry has the id, every other entry remains, and the list never grows |
| CategoryContext.WithoutCategoryKeepsOrder | context/CategoryContext.tsx:95 | the remaining entries keep their relative order, so a sorted list stays sorted |
| CategoryContext.CategoryStore.constructor | context/CategoryContext.tsx:21-23 | the list starts empty and loading, reading the given session |
| CategoryContext.CategoryStore.Load | context/CategoryContext.tsx:25-44 | with no session the list is emptied; with one the list becomes the fetched list, or stays as it was when the request threw; loading is over afterwards either way |
| CategoryContext.OutcomeOf | context/CategoryContext.tsx:55-63 | a sent request resolves to true exactly on success, to false exactly on a JSON error answer, and rejects exactly when the error body is plain status text or `fetch` failed |
| CategoryContext.CategoryStore.Add | context/CategoryContext.tsx:48-64 | no session resolves to false; otherwise the outcome is that of the reply; it resolves to true exactly with a session and a successful reply, and then the list is the sorted add; in every other case the list is unchanged |
| CategoryContext.CategoryStore.Update | context/CategoryContext.tsx:66-82 | no session resolves to false; otherwise the outcome is that of the reply; it resolves to true exactly with a session and a successful reply, and then the list is the replace by id; in every other case the list is unchanged |
| CategoryContext.CategoryStore.Delete | context/CategoryContext.tsx:84-106 | true exactly with a session and an ok answer, and then the list is the filter by id; otherwise, including a request that threw, false and the list unchanged |

## Left out

- HTTP plumbing is not modelled: Express routing, CORS, JSON body parsing, dotenv and `app.listen`. Each route is a method taking the already-parsed fields. An absent field checked with `!` (email, password, name, type) is folded into the empty string, which the check rejects the same way.
- The Postgres pool and SQL text are replaced by in-memory sequences, and the SQL statements by functions on them:
  - the unique constraints (`users.email`, and `categories` on `(user_id, name)`) are not in the repository's files and are taken as table invariants;
  - the database default for `timestamp` is a counter `clock` that grows with every insert.
- The generic 500 branches are not modelled. They are answers to storage failures, and the model has none.
- A serial value consumed by an insert that then fails a unique constraint is not modelled. In the model a failed insert leaves the id counter as it was, so ids stay consecutive. Postgres would leave a gap.
- `:id` values that are not numbers are not modelled. In Postgres those raise an error and a 500. In the model ids are natural numbers.
- Server.Database.AddTransaction: an absent `description`, `type` or `category` is stored by Postgres as NULL and comes back as `null`; the model stores `""` instead. No category can have the empty name, so the cascade of a category delete treats both alike.
- bcrypt and JSON Web Tokens are replaced by stand-ins. `genSalt`'s randomness is a `salt` parameter of `Register`.
- Crypto.CheckPasswordOfHash: bcryptjs reads the first 72 UTF-8 bytes of a password; the model reads the first 72 characters, which is the same for ASCII passwords but not for passwords with multi-byte characters. Beyond truncation, the stand-in hash is injective, while a real hash can in principle collide.
- Crypto.VerifySigned: the secret and the 1-hour expiry are not modelled, so a signed token never stops verifying; a token signed with another secret, or a tampered one, is any string other than `Sign(id)` and fails.
- Concurrency is not modelled. Each handler runs atomically, so two of the app's behaviours are out of scope: two simultaneous first `GET /categories` calls racing to seed, and the two statements of the category delete being non-atomic.
- CategoryContext.NameLe: stands for `localeCompare`, which depends on the locale. The model uses the lexicographic order of code points, a total order; the properties proved hold for any total order.
- TransactionContext.AddTransaction: `Math.random().toString(36)` and `new Date()` are parameters (`id`, `now`). Freshness of the id is an explicit hypothesis of `DeleteUndoesAdd`.
- Amounts are integers; the client's `parseFloat` check in the add-transaction screen is floating point and is not modelled.
- The client's I/O is not modelled: `fetch`, `alert` and `console`. The server's answer to each request is a parameter of the corresponding `CategoryStore` method.
- CategoryContext.CategoryStore.Load: takes the parsed body to be a category list. When the server answers with a JSON body that is not an array, such as the `{ error }` of a 500, the code would store that value; the model does not represent a non-list value. A plain-text 401/403 answer makes `response.json()` throw, which is caught: that is the `fetched == None` case, and the list stays as it was.
- CategoryContext.CategoryStore.Add and CategoryContext.CategoryStore.Update: the `alert` of the error message is not modelled; the reply is a parameter classified as success, JSON error, plain-text error (where `response.json()` throws) or a failed `fetch`.
- The `useEffect` re-run on a change of session is not modelled. The session is a `const` of the store, and a new session is a new store.
- The rest of the client is not part of this model: AuthContext (secure storage and navigation), the theme context, the screens, the mock data and the server test file.
