/** The three tables the server keeps in Postgres (`users`, `categories`,
    `transactions`), each as a sequence of rows in insertion order, and every
    SQL statement of server/index.js as a function on those sequences. The
    invariants say what the table constraints guarantee: serial ids, unique
    emails, categories unique per `(user_id, name)`, and transaction
    timestamps that grow with insertion. */
module Tables {
  import opened SeqUtil

  datatype User = User(id: nat, email: string, passwordHash: string)

  /** The projection `RETURNING id, email` and `{ id: user.id, email: user.email }`. */
  datatype PublicUser = PublicUser(id: nat, email: string)

  datatype Category = Category(id: nat, userId: nat, name: string, kind: string)

  datatype Transaction = Transaction(
    id: nat, userId: nat, description: string, amount: int,
    kind: string, category: string, timestamp: nat)

  function Public(u: User): PublicUser { PublicUser(u.id, u.email) }

  // ------------------------------------------------------------ users

  /** Row order of `users`: serial ids, and no email twice. */
  predicate UserBefore(a: User, b: User) { a.id < b.id && a.email != b.email }

  ghost predicate UsersValid(users: seq<User>, nextId: nat)
  {
    Chained(users, UserBefore) && forall u :: u in users ==> u.id < nextId
  }

  /** `SELECT * FROM users WHERE email = $1`. */
  function UsersWithEmail(users: seq<User>, email: string): (rows: seq<User>)
  {
    Filter(users, (u: User) => u.email == email)
  }

  /** Whether an insert of `email` violates the unique email constraint. */
  predicate EmailTaken(users: seq<User>, email: string)
  {
    exists i :: 0 <= i < |users| && users[i].email == email
  }

  /** The email lookup finds the one user with that email, if any. */
  lemma {:induction false} UsersWithEmailUnique(users: seq<User>, nextId: nat, email: string)
    requires UsersValid(users, nextId)
    ensures |UsersWithEmail(users, email)| <= 1
    ensures UsersWithEmail(users, email) == [] <==> !EmailTaken(users, email)
    ensures UsersWithEmail(users, email) != [] ==>
      UsersWithEmail(users, email)[0] in users && UsersWithEmail(users, email)[0].email == email
  {
    var rows := UsersWithEmail(users, email);
    if EmailTaken(users, email) {
      var i :| 0 <= i < |users| && users[i].email == email;
      assert users[i] in rows;
    }
    if rows != [] {
      assert rows[0] in rows;
      var i :| 0 <= i < |users| && users[i] == rows[0];
    }
    if users != [] {
      ChainedTail(users, UserBefore);
      UsersWithEmailUnique(users[1..], nextId, email);
      if users[0].email == email {
        forall k | 0 <= k < |users[1..]| ensures users[1..][k].email != email {
          assert UserBefore(users[0], users[k + 1]);
        }
      }
    }
  }

  /** Registering an email not in use keeps the users table valid. */
  lemma InsertUserValid(users: seq<User>, nextId: nat, email: string, hash: string)
    requires UsersValid(users, nextId) && !EmailTaken(users, email)
    ensures UsersValid(users + [User(nextId, email, hash)], nextId + 1)
  {
    ChainedAppend(users, User(nextId, email, hash), UserBefore);
  }

  // ------------------------------------------------------------ transactions

  /** Row order of `transactions`: serial ids and creation timestamps both grow. */
  predicate TransactionBefore(a: Transaction, b: Transaction)
  {
    a.id < b.id && a.timestamp < b.timestamp
  }

  ghost predicate TransactionsValid(ts: seq<Transaction>, nextId: nat, clock: nat)
  {
    && Chained(ts, TransactionBefore)
    && forall t :: t in ts ==> t.id < nextId && t.timestamp < clock
  }

  /** `WHERE user_id = $1`. */
  function TransactionsOf(ts: seq<Transaction>, userId: nat): seq<Transaction>
  {
    Filter(ts, (t: Transaction) => t.userId == userId)
  }

  ghost predicate NewestFirst(rows: seq<Transaction>)
  {
    forall i, j :: 0 <= i < j < |rows| ==> rows[i].timestamp > rows[j].timestamp
  }

  /** `SELECT * FROM transactions WHERE user_id = $1 ORDER BY timestamp DESC`:
      rows are kept in insertion order, which is timestamp order. */
  function SelectTransactions(ts: seq<Transaction>, userId: nat): seq<Transaction>
  {
    Reverse(TransactionsOf(ts, userId))
  }

  /** The listing holds exactly the caller's rows, newest first. */
  lemma SelectTransactionsSpec(ts: seq<Transaction>, nextId: nat, clock: nat, userId: nat)
    requires TransactionsValid(ts, nextId, clock)
    ensures forall t :: t in SelectTransactions(ts, userId) <==> t in ts && t.userId == userId
    ensures NewestFirst(SelectTransactions(ts, userId))
  {
    var mine := TransactionsOf(ts, userId);
    FilterChained(ts, (t: Transaction) => t.userId == userId, TransactionBefore);
    var r := SelectTransactions(ts, userId);
    forall t ensures t in r <==> t in mine {
      if t in r {
        var i :| 0 <= i < |r| && r[i] == t;
        assert mine[|mine| - 1 - i] == t;
      }
      if t in mine {
        var i :| 0 <= i < |mine| && mine[i] == t;
        assert r[|mine| - 1 - i] == t;
      }
    }
    forall i, j | 0 <= i < j < |r| ensures r[i].timestamp > r[j].timestamp {
      assert TransactionBefore(mine[|mine| - 1 - j], mine[|mine| - 1 - i]);
    }
  }

  /** `WHERE id = $1 AND user_id = $2`. */
  predicate TransactionMatches(t: Transaction, id: nat, userId: nat)
  {
    t.id == id && t.userId == userId
  }

  /** The rows `DELETE ... RETURNING *` reports. */
  function MatchingTransactions(ts: seq<Transaction>, id: nat, userId: nat): seq<Transaction>
  {
    Filter(ts, (t: Transaction) => TransactionMatches(t, id, userId))
  }

  /** The table after `DELETE FROM transactions WHERE id = $1 AND user_id = $2`. */
  function DeleteTransactionRows(ts: seq<Transaction>, id: nat, userId: nat): seq<Transaction>
  {
    Filter(ts, (t: Transaction) => !TransactionMatches(t, id, userId))
  }

  /** The delete removes nothing when no row matches, and otherwise exactly
      one row, since ids are unique; rows of other users always remain. */
  lemma {:induction false} DeleteTransactionRowsSpec(ts: seq<Transaction>, id: nat, userId: nat)
    requires Chained(ts, TransactionBefore)
    ensures MatchingTransactions(ts, id, userId) == [] ==> DeleteTransactionRows(ts, id, userId) == ts
    ensures MatchingTransactions(ts, id, userId) != [] ==>
      |MatchingTransactions(ts, id, userId)| == 1 && |DeleteTransactionRows(ts, id, userId)| == |ts| - 1
  {
    if ts != [] {
      ChainedTail(ts, TransactionBefore);
      DeleteTransactionRowsSpec(ts[1..], id, userId);
      if TransactionMatches(ts[0], id, userId) {
        assert forall k :: 0 <= k < |ts[1..]| ==> !TransactionMatches(ts[1..][k], id, userId) by {
          forall k | 0 <= k < |ts[1..]| ensures !TransactionMatches(ts[1..][k], id, userId) {
            assert TransactionBefore(ts[0], ts[k + 1]);
          }
        }
        NoneMatch(ts[1..], id, userId);
      }
    }
  }

  /** Helper: a table without matching rows is left whole by the delete. */
  lemma NoneMatch(ts: seq<Transaction>, id: nat, userId: nat)
    requires forall k :: 0 <= k < |ts| ==> !TransactionMatches(ts[k], id, userId)
    ensures MatchingTransactions(ts, id, userId) == []
    ensures DeleteTransactionRows(ts, id, userId) == ts
  {
    FilterAllKept(ts, (t: Transaction) => !TransactionMatches(t, id, userId));
    FilterNoneKept(ts, (t: Transaction) => TransactionMatches(t, id, userId));
  }

  /** Adding a transaction stamped after every row keeps the table valid. */
  lemma InsertTransactionValid(ts: seq<Transaction>, nextId: nat, clock: nat, t: Transaction)
    requires TransactionsValid(ts, nextId, clock) && t.id == nextId && t.timestamp == clock
    ensures TransactionsValid(ts + [t], nextId + 1, clock + 1)
  {
    ChainedAppend(ts, t, TransactionBefore);
  }

  /** The table after `DELETE FROM transactions WHERE category = (<subquery>)`,
      where the subquery yields the deleted category's name, or NULL when the
      caller owns no such category. The comparison has no `user_id` filter,
      and `category = NULL` holds for no row. */
  function CascadeRows(ts: seq<Transaction>, name: Option<string>): (r: seq<Transaction>)
  {
    match name
    case None => ts
    case Some(n) => Filter(ts, (t: Transaction) => t.category != n)
  }

  /** The cascade removes every row carrying the name, of whichever user, and
      nothing else. */
  lemma CascadeRowsSpec(ts: seq<Transaction>, nextId: nat, clock: nat, name: Option<string>)
    requires TransactionsValid(ts, nextId, clock)
    ensures name.None? ==> CascadeRows(ts, name) == ts
    ensures name.Some? ==> forall t :: t in CascadeRows(ts, name) <==> t in ts && t.category != name.value
    ensures name.Some? ==> Subseq(CascadeRows(ts, name), ts)
    ensures TransactionsValid(CascadeRows(ts, name), nextId, clock)
  {
    if name.Some? {
      FilterIsSubseq(ts, (t: Transaction) => t.category != name.value);
      FilterChained(ts, (t: Transaction) => t.category != name.value, TransactionBefore);
    }
  }

  /** A delete by id and owner keeps the table valid. */
  lemma DeleteTransactionValid(ts: seq<Transaction>, nextId: nat, clock: nat, id: nat, userId: nat)
    requires TransactionsValid(ts, nextId, clock)
    ensures TransactionsValid(DeleteTransactionRows(ts, id, userId), nextId, clock)
  {
    FilterChained(ts, (t: Transaction) => !TransactionMatches(t, id, userId), TransactionBefore);
  }

  // ------------------------------------------------------------ categories

  /** Row order of `categories`: serial ids, and no `(user_id, name)` pair twice. */
  predicate CategoryBefore(a: Category, b: Category)
  {
    a.id < b.id && (a.userId != b.userId || a.name != b.name)
  }

  ghost predicate CategoriesValid(cs: seq<Category>, nextId: nat)
  {
    Chained(cs, CategoryBefore) && forall c :: c in cs ==> c.id < nextId
  }

  /** `SELECT * FROM categories WHERE user_id = $1`. */
  function CategoriesOf(cs: seq<Category>, userId: nat): seq<Category>
  {
    Filter(cs, (c: Category) => c.userId == userId)
  }

  /** Whether inserting `(userId, name)` violates the unique constraint. */
  predicate NameInUse(cs: seq<Category>, userId: nat, name: string)
  {
    exists i :: 0 <= i < |cs| && cs[i].userId == userId && cs[i].name == name
  }

  /** Whether renaming row `id` to `name` violates the unique constraint: a
      different row of the same user already has that name. */
  predicate NameInUseByOther(cs: seq<Category>, id: nat, userId: nat, name: string)
  {
    exists i :: 0 <= i < |cs| && cs[i].userId == userId && cs[i].name == name && cs[i].id != id
  }

  /** `WHERE id = $1 AND user_id = $2`. */
  predicate CategoryMatches(c: Category, id: nat, userId: nat)
  {
    c.id == id && c.userId == userId
  }

  function MatchingCategories(cs: seq<Category>, id: nat, userId: nat): seq<Category>
  {
    Filter(cs, (c: Category) => CategoryMatches(c, id, userId))
  }

  /** Ids are unique, so at most one row matches an id and owner. */
  lemma {:induction false} MatchingCategoriesAtMostOne(cs: seq<Category>, id: nat, userId: nat)
    requires Chained(cs, CategoryBefore)
    ensures |MatchingCategories(cs, id, userId)| <= 1
    ensures MatchingCategories(cs, id, userId) == [] <==>
      forall i :: 0 <= i < |cs| ==> !CategoryMatches(cs[i], id, userId)
  {
    var m := MatchingCategories(cs, id, userId);
    if m == [] {
      forall i | 0 <= i < |cs| ensures !CategoryMatches(cs[i], id, userId) {
        assert cs[i] in cs;
      }
    } else {
      assert m[0] in m;
    }
    if cs != [] {
      ChainedTail(cs, CategoryBefore);
      MatchingCategoriesAtMostOne(cs[1..], id, userId);
      if CategoryMatches(cs[0], id, userId) {
        forall k | 0 <= k < |cs[1..]| ensures !CategoryMatches(cs[1..][k], id, userId) {
          assert CategoryBefore(cs[0], cs[k + 1]);
        }
      }
    }
  }

  /** `UPDATE categories SET name = $1 WHERE id = $2 AND user_id = $3`. */
  function RenameRows(cs: seq<Category>, id: nat, userId: nat, name: string): seq<Category>
  {
    Map(cs, (c: Category) => if CategoryMatches(c, id, userId) then c.(name := name) else c)
  }

  /** The rename changes only the name of the matching row, keeping its
      position, id, owner and type, and keeps the table valid when the new
      name is not another row's. */
  lemma RenameRowsSpec(cs: seq<Category>, nextId: nat, id: nat, userId: nat, name: string)
    requires CategoriesValid(cs, nextId) && !NameInUseByOther(cs, id, userId, name)
    ensures |RenameRows(cs, id, userId, name)| == |cs|
    ensures forall i :: 0 <= i < |cs| && !CategoryMatches(cs[i], id, userId) ==>
      RenameRows(cs, id, userId, name)[i] == cs[i]
    ensures forall i :: 0 <= i < |cs| && CategoryMatches(cs[i], id, userId) ==>
      RenameRows(cs, id, userId, name)[i] == Category(id, userId, name, cs[i].kind)
    ensures CategoriesValid(RenameRows(cs, id, userId, name), nextId)
    ensures MatchingCategories(RenameRows(cs, id, userId, name), id, userId) ==
      Map(MatchingCategories(cs, id, userId), (c: Category) => c.(name := name))
  {
    var r := RenameRows(cs, id, userId, name);
    forall i, j | 0 <= i < j < |r| ensures CategoryBefore(r[i], r[j]) {
      assert CategoryBefore(cs[i], cs[j]);
    }
    RenameMatching(cs, id, userId, name);
  }

  /** Helper for RenameRowsSpec: the matching rows after the rename are the
      renamed matching rows. */
  lemma {:induction false} RenameMatching(cs: seq<Category>, id: nat, userId: nat, name: string)
    ensures MatchingCategories(RenameRows(cs, id, userId, name), id, userId) ==
      Map(MatchingCategories(cs, id, userId), (c: Category) => c.(name := name))
  {
    var r := RenameRows(cs, id, userId, name);
    if cs != [] {
      RenameMatching(cs[1..], id, userId, name);
      assert r[1..] == RenameRows(cs[1..], id, userId, name);
      assert r[0] == (if CategoryMatches(cs[0], id, userId) then cs[0].(name := name) else cs[0]);
    }
  }

  /** The table after `DELETE FROM categories WHERE id = $1 AND user_id = $2`. */
  function DeleteCategoryRows(cs: seq<Category>, id: nat, userId: nat): seq<Category>
  {
    Filter(cs, (c: Category) => !CategoryMatches(c, id, userId))
  }

  /** The delete removes the matching row, if any, and keeps every other row
      in order; the table stays valid. */
  lemma DeleteCategoryRowsSpec(cs: seq<Category>, nextId: nat, id: nat, userId: nat)
    requires CategoriesValid(cs, nextId)
    ensures forall c :: c in DeleteCategoryRows(cs, id, userId) <==> c in cs && !CategoryMatches(c, id, userId)
    ensures Subseq(DeleteCategoryRows(cs, id, userId), cs)
    ensures MatchingCategories(cs, id, userId) == [] ==> DeleteCategoryRows(cs, id, userId) == cs
    ensures CategoriesValid(DeleteCategoryRows(cs, id, userId), nextId)
  {
    FilterIsSubseq(cs, (c: Category) => !CategoryMatches(c, id, userId));
    FilterChained(cs, (c: Category) => !CategoryMatches(c, id, userId), CategoryBefore);
    MatchingCategoriesAtMostOne(cs, id, userId);
    if MatchingCategories(cs, id, userId) == [] {
      FilterAllKept(cs, (c: Category) => !CategoryMatches(c, id, userId));
    }
  }

  /** `(SELECT name FROM categories WHERE id = $1 AND user_id = $2)`, None for NULL. */
  function CategoryNameOf(cs: seq<Category>, id: nat, userId: nat): Option<string>
  {
    var m := MatchingCategories(cs, id, userId);
    if m == [] then None else Some(m[0].name)
  }

  /** Adding a category whose name the user does not have keeps the table valid. */
  lemma InsertCategoryValid(cs: seq<Category>, nextId: nat, c: Category)
    requires CategoriesValid(cs, nextId) && c.id == nextId && !NameInUse(cs, c.userId, c.name)
    ensures CategoriesValid(cs + [c], nextId + 1)
  {
    ChainedAppend(cs, c, CategoryBefore);
  }

  // ------------------------------------------------------------ default categories

  datatype DefaultCategory = DefaultCategory(name: string, kind: string)

  /** The defaults `GET /categories` provisions (server/index.js:149-154). */
  const Defaults: seq<DefaultCategory> := [
    DefaultCategory("Alimentação", "despesa"), DefaultCategory("Transporte", "despesa"),
    DefaultCategory("Moradia", "despesa"), DefaultCategory("Lazer", "despesa"),
    DefaultCategory("Saúde", "despesa"), DefaultCategory("Outros", "despesa"),
    DefaultCategory("Salário", "receita"), DefaultCategory("Investimentos", "receita")
  ]

  /** The rows the provisioning loop inserts for `userId`, the serial
      continuing from `firstId`. */
  function SeedRows(userId: nat, firstId: nat): (rows: seq<Category>)
    ensures |rows| == 8
    ensures forall i :: 0 <= i < 8 ==> rows[i].userId == userId && rows[i].id == firstId + i
    ensures forall i :: 0 <= i < 6 ==> rows[i].kind == "despesa"
    ensures forall i :: 6 <= i < 8 ==> rows[i].kind == "receita"
    ensures forall i, j :: 0 <= i < j < 8 ==> rows[i].name != rows[j].name
  {
    seq(8, i requires 0 <= i < 8 => Category(firstId + i, userId, Defaults[i].name, Defaults[i].kind))
  }

  /** Seeding a user who has no categories: the table stays valid, the user
      then has exactly the eight defaults, and every other user's
      categories are as before. */
  lemma SeedRowsSpec(cs: seq<Category>, nextId: nat, userId: nat)
    requires CategoriesValid(cs, nextId) && CategoriesOf(cs, userId) == []
    ensures CategoriesValid(cs + SeedRows(userId, nextId), nextId + 8)
    ensures CategoriesOf(cs + SeedRows(userId, nextId), userId) == SeedRows(userId, nextId)
    ensures forall other :: other != userId ==>
      CategoriesOf(cs + SeedRows(userId, nextId), other) == CategoriesOf(cs, other)
  {
    var seed := SeedRows(userId, nextId);
    var all := cs + seed;
    forall i, j | 0 <= i < j < |all| ensures CategoryBefore(all[i], all[j]) {
      if j < |cs| {
        assert CategoryBefore(cs[i], cs[j]);
      } else if i < |cs| {
        assert cs[i] in cs;
      }
    }
    FilterConcat(cs, seed, (c: Category) => c.userId == userId);
    FilterAllKept(seed, (c: Category) => c.userId == userId);
    forall other | other != userId
      ensures CategoriesOf(all, other) == CategoriesOf(cs, other)
    {
      FilterConcat(cs, seed, (c: Category) => c.userId == other);
      FilterNoneKept(seed, (c: Category) => c.userId == other);
    }
  }
}
