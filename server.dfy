/** The Express routes of server/index.js as methods of one `Database`
    object holding the three tables. Each protected route first runs the
    `authenticateToken` decision on the raw `Authorization` header; when that
    rejects the request, the route's handler does not run and no table
    changes. Each SQL statement is one assignment of a table to the value
    the corresponding function of `Tables` gives. */
module Server {
  import opened SeqUtil
  import opened Crypto
  import opened Auth
  import opened Tables

  /** The JSON (or status text) a route answers with. */
  datatype Body =
    | StatusText(text: string)
    | ErrorBody(error: string)
    | UserBody(user: PublicUser)
    | LoginBody(token: string, user: PublicUser)
    | TransactionsBody(transactions: seq<Transaction>)
    | TransactionBody(transaction: Transaction)
    | CategoriesBody(categories: seq<Category>)
    | CategoryBody(category: Category)
    | MessageBody(message: string)

  datatype Response = Response(status: nat, body: Body)

  const CredentialsRequired := "Email e senha são obrigatórios."
  const EmailInUse := "Este email já está em uso."
  const InvalidCredentials := "Credenciais inválidas."
  const TransactionNotFound := "Transação não encontrada ou não pertence ao usuário."
  const TransactionDeleted := "Transação deletada com sucesso."
  const CategoryFieldsRequired := "Nome e tipo são obrigatórios."
  const CategoryNameExists := "Uma categoria com este nome já existe."
  const NewNameRequired := "O novo nome é obrigatório."
  const CategoryNotFound := "Categoria não encontrada ou não pertence ao usuário."
  const CategoryDeleted := "Categoria e transações associadas foram deletadas."

  /** `res.sendStatus(401)` or `res.sendStatus(403)`. */
  function Rejection(a: AuthResult): (r: Response)
    requires !a.Authenticated?
    ensures r.status == 401 || r.status == 403
  {
    Response(RejectionStatus(a), StatusText(RejectionText(a)))
  }

  class Database {
    var users: seq<User>
    var categories: seq<Category>
    var transactions: seq<Transaction>
    /** The next values of the three serial id sequences. */
    var nextUserId: nat
    var nextCategoryId: nat
    var nextTransactionId: nat
    /** The database clock that stamps `transactions.timestamp`. */
    var clock: nat

    ghost predicate Valid()
      reads this
    {
      && UsersValid(users, nextUserId)
      && CategoriesValid(categories, nextCategoryId)
      && TransactionsValid(transactions, nextTransactionId, clock)
    }

    constructor ()
      ensures Valid()
      ensures users == [] && categories == [] && transactions == []
    {
      users, categories, transactions := [], [], [];
      nextUserId, nextCategoryId, nextTransactionId := 1, 1, 1;
      clock := 0;
    }

    /** POST /register (server/index.js:42-63). A duplicate email answers 400. */
    method Register(email: string, password: string, salt: nat) returns (resp: Response)
      requires Valid()
      modifies this`users, this`nextUserId
      ensures Valid()
      ensures email == "" || password == "" ==>
        resp == Response(400, ErrorBody(CredentialsRequired)) && unchanged(this)
      ensures email != "" && password != "" && EmailTaken(old(users), email) ==>
        resp == Response(400, ErrorBody(EmailInUse)) && unchanged(this)
      ensures email != "" && password != "" && !EmailTaken(old(users), email) ==>
        && users == old(users) + [User(old(nextUserId), email, HashPassword(salt, password))]
        && nextUserId == old(nextUserId) + 1
        && resp == Response(201, UserBody(PublicUser(old(nextUserId), email)))
    {
      if email == "" || password == "" {
        return Response(400, ErrorBody(CredentialsRequired));
      }
      var passwordHash := HashPassword(salt, password);
      if EmailTaken(users, email) {
        return Response(400, ErrorBody(EmailInUse));
      }
      var user := User(nextUserId, email, passwordHash);
      InsertUserValid(users, nextUserId, email, passwordHash);
      users := users + [user];
      nextUserId := nextUserId + 1;
      resp := Response(201, UserBody(Public(user)));
    }

    /** POST /login (server/index.js:65-89). Reads `users` only. An unknown
        email and a wrong password give the same answer. */
    method Login(email: string, password: string) returns (resp: Response)
      requires Valid()
      ensures email == "" || password == "" ==> resp == Response(400, ErrorBody(CredentialsRequired))
      ensures email != "" && password != "" ==>
        (resp.status == 200 <==>
          exists u :: u in users && u.email == email && CheckPassword(password, u.passwordHash))
      ensures email != "" && password != "" && resp.status != 200 ==>
        resp == Response(401, ErrorBody(InvalidCredentials))
      ensures resp.status == 200 ==>
        && resp.body.LoginBody?
        && exists u :: u in users && u.email == email && CheckPassword(password, u.passwordHash)
                       && resp.body.user == Public(u) && Verify(resp.body.token) == Some(u.id)
    {
      if email == "" || password == "" {
        return Response(400, ErrorBody(CredentialsRequired));
      }
      var rows := UsersWithEmail(users, email);
      UsersWithEmailUnique(users, nextUserId, email);
      if |rows| == 0 {
        return Response(401, ErrorBody(InvalidCredentials));
      }
      var user := rows[0];
      var isMatch := CheckPassword(password, user.passwordHash);
      if !isMatch {
        return Response(401, ErrorBody(InvalidCredentials));
      }
      var token := Sign(user.id);
      VerifySigned(token, user.id);
      resp := Response(200, LoginBody(token, Public(user)));
    }

    /** GET /transactions (server/index.js:97-108). */
    method ListTransactions(header: Option<string>) returns (resp: Response)
      requires Valid()
      ensures !Authenticate(header).Authenticated? ==> resp == Rejection(Authenticate(header))
      ensures Authenticate(header).Authenticated? ==>
        var caller := Authenticate(header).userId;
        && resp == Response(200, TransactionsBody(SelectTransactions(transactions, caller)))
        && (forall t :: t in resp.body.transactions <==> t in transactions && t.userId == caller)
        && NewestFirst(resp.body.transactions)
    {
      var auth := Authenticate(header);
      if !auth.Authenticated? {
        return Rejection(auth);
      }
      SelectTransactionsSpec(transactions, nextTransactionId, clock, auth.userId);
      resp := Response(200, TransactionsBody(SelectTransactions(transactions, auth.userId)));
    }

    /** POST /transactions (server/index.js:111-123). The owner is the
        authenticated caller; no field is validated. */
    method AddTransaction(header: Option<string>, description: string, amount: int, kind: string, category: string)
      returns (resp: Response)
      requires Valid()
      modifies this`transactions, this`nextTransactionId, this`clock
      ensures Valid()
      ensures !Authenticate(header).Authenticated? ==>
        resp == Rejection(Authenticate(header)) && unchanged(this)
      ensures Authenticate(header).Authenticated? ==>
        var row := Transaction(old(nextTransactionId), Authenticate(header).userId,
                               description, amount, kind, category, old(clock));
        && transactions == old(transactions) + [row]
        && nextTransactionId == old(nextTransactionId) + 1 && clock == old(clock) + 1
        && resp == Response(201, TransactionBody(row))
    {
      var auth := Authenticate(header);
      if !auth.Authenticated? {
        return Rejection(auth);
      }
      var row := Transaction(nextTransactionId, auth.userId, description, amount, kind, category, clock);
      InsertTransactionValid(transactions, nextTransactionId, clock, row);
      transactions := transactions + [row];
      nextTransactionId, clock := nextTransactionId + 1, clock + 1;
      resp := Response(201, TransactionBody(row));
    }

    /** DELETE /transactions/:id (server/index.js:126-141). */
    method DeleteTransaction(header: Option<string>, id: nat) returns (resp: Response)
      requires Valid()
      modifies this`transactions
      ensures Valid()
      ensures !Authenticate(header).Authenticated? ==>
        resp == Rejection(Authenticate(header)) && unchanged(this)
      ensures Authenticate(header).Authenticated? ==>
        var caller := Authenticate(header).userId;
        && (MatchingTransactions(old(transactions), id, caller) == [] ==>
              resp == Response(404, ErrorBody(TransactionNotFound)) && transactions == old(transactions))
        && (MatchingTransactions(old(transactions), id, caller) != [] ==>
              && resp == Response(200, MessageBody(TransactionDeleted))
              && transactions == DeleteTransactionRows(old(transactions), id, caller)
              && |transactions| == |old(transactions)| - 1)
        && (forall t :: t in transactions <==> t in old(transactions) && !TransactionMatches(t, id, caller))
        && Subseq(transactions, old(transactions))
    {
      var auth := Authenticate(header);
      if !auth.Authenticated? {
        return Rejection(auth);
      }
      var deleted := MatchingTransactions(transactions, id, auth.userId);
      DeleteTransactionRowsSpec(transactions, id, auth.userId);
      DeleteTransactionValid(transactions, nextTransactionId, clock, id, auth.userId);
      FilterIsSubseq(transactions, (t: Transaction) => !TransactionMatches(t, id, auth.userId));
      transactions := DeleteTransactionRows(transactions, id, auth.userId);
      if |deleted| == 0 {
        return Response(404, ErrorBody(TransactionNotFound));
      }
      resp := Response(200, MessageBody(TransactionDeleted));
    }

    /** GET /categories (server/index.js:144-168): a caller without
        categories first gets the eight defaults, inserted one by one. */
    method ListCategories(header: Option<string>) returns (resp: Response)
      requires Valid()
      modifies this`categories, this`nextCategoryId
      ensures Valid()
      ensures !Authenticate(header).Authenticated? ==>
        resp == Rejection(Authenticate(header)) && unchanged(this)
      ensures Authenticate(header).Authenticated? ==>
        var caller := Authenticate(header).userId;
        && (CategoriesOf(old(categories), caller) == [] ==>
              && categories == old(categories) + SeedRows(caller, old(nextCategoryId))
              && nextCategoryId == old(nextCategoryId) + 8
              && resp == Response(200, CategoriesBody(SeedRows(caller, old(nextCategoryId)))))
        && (CategoriesOf(old(categories), caller) != [] ==>
              unchanged(this) && resp == Response(200, CategoriesBody(CategoriesOf(categories, caller))))
        && CategoriesOf(categories, caller) != []
        && (forall other :: other != caller ==>
              CategoriesOf(categories, other) == CategoriesOf(old(categories), other))
    {
      var auth := Authenticate(header);
      if !auth.Authenticated? {
        return Rejection(auth);
      }
      var userId := auth.userId;
      var userCategories := CategoriesOf(categories, userId);
      if |userCategories| == 0 {
        SeedDefaults(userId);
        userCategories := CategoriesOf(categories, userId);
      }
      resp := Response(200, CategoriesBody(userCategories));
    }

    /** The provisioning loop of GET /categories (server/index.js:155-160):
        one insert per default, for a caller who has no category yet. */
    method SeedDefaults(userId: nat)
      requires Valid() && CategoriesOf(categories, userId) == []
      modifies this`categories, this`nextCategoryId
      ensures Valid()
      ensures categories == old(categories) + SeedRows(userId, old(nextCategoryId))
      ensures nextCategoryId == old(nextCategoryId) + 8
      ensures CategoriesOf(categories, userId) == SeedRows(userId, old(nextCategoryId))
      ensures forall other :: other != userId ==>
        CategoriesOf(categories, other) == CategoriesOf(old(categories), other)
    {
      ghost var before := categories;
      ghost var seed := SeedRows(userId, nextCategoryId);
      var i := 0;
      while i < |Defaults|
        invariant 0 <= i <= |Defaults|
        invariant categories == before + seed[..i]
        invariant nextCategoryId == old(nextCategoryId) + i
      {
        assert seed[..i + 1] == seed[..i] + [seed[i]];
        categories := categories + [Category(nextCategoryId, userId, Defaults[i].name, Defaults[i].kind)];
        nextCategoryId := nextCategoryId + 1;
        i := i + 1;
      }
      assert seed[..8] == seed;
      SeedRowsSpec(before, old(nextCategoryId), userId);
    }

    /** POST /categories (server/index.js:175-197). */
    method AddCategory(header: Option<string>, name: string, kind: string) returns (resp: Response)
      requires Valid()
      modifies this`categories, this`nextCategoryId
      ensures Valid()
      ensures !Authenticate(header).Authenticated? ==>
        resp == Rejection(Authenticate(header)) && unchanged(this)
      ensures Authenticate(header).Authenticated? ==>
        var caller := Authenticate(header).userId;
        && (name == "" || kind == "" ==>
              resp == Response(400, ErrorBody(CategoryFieldsRequired)) && unchanged(this))
        && (name != "" && kind != "" && NameInUse(old(categories), caller, name) ==>
              resp == Response(409, ErrorBody(CategoryNameExists)) && unchanged(this))
        && (name != "" && kind != "" && !NameInUse(old(categories), caller, name) ==>
              var row := Category(old(nextCategoryId), caller, name, kind);
              && categories == old(categories) + [row]
              && nextCategoryId == old(nextCategoryId) + 1
              && resp == Response(201, CategoryBody(row)))
    {
      var auth := Authenticate(header);
      if !auth.Authenticated? {
        return Rejection(auth);
      }
      if name == "" || kind == "" {
        return Response(400, ErrorBody(CategoryFieldsRequired));
      }
      if NameInUse(categories, auth.userId, name) {
        return Response(409, ErrorBody(CategoryNameExists));
      }
      var row := Category(nextCategoryId, auth.userId, name, kind);
      InsertCategoryValid(categories, nextCategoryId, row);
      categories := categories + [row];
      nextCategoryId := nextCategoryId + 1;
      resp := Response(201, CategoryBody(row));
    }

    /** PUT /categories/:id (server/index.js:200-226). */
    method RenameCategory(header: Option<string>, id: nat, name: string) returns (resp: Response)
      requires Valid()
      modifies this`categories
      ensures Valid()
      ensures !Authenticate(header).Authenticated? ==>
        resp == Rejection(Authenticate(header)) && unchanged(this)
      ensures Authenticate(header).Authenticated? ==>
        var caller := Authenticate(header).userId;
        var matching := MatchingCategories(old(categories), id, caller);
        && (name == "" ==>
              resp == Response(400, ErrorBody(NewNameRequired)) && unchanged(this))
        && (name != "" && matching == [] ==>
              resp == Response(404, ErrorBody(CategoryNotFound)) && unchanged(this))
        && (name != "" && matching != [] && NameInUseByOther(old(categories), id, caller, name) ==>
              resp == Response(409, ErrorBody(CategoryNameExists)) && unchanged(this))
        && (name != "" && matching != [] && !NameInUseByOther(old(categories), id, caller, name) ==>
              && categories == RenameRows(old(categories), id, caller, name)
              && resp == Response(200, CategoryBody(Category(id, caller, name, matching[0].kind)))
              && |categories| == |old(categories)|
              && forall i :: 0 <= i < |categories| && !CategoryMatches(old(categories)[i], id, caller) ==>
                   categories[i] == old(categories)[i])
    {
      var auth := Authenticate(header);
      if !auth.Authenticated? {
        return Rejection(auth);
      }
      if name == "" {
        return Response(400, ErrorBody(NewNameRequired));
      }
      var matching := MatchingCategories(categories, id, auth.userId);
      if |matching| == 0 {
        return Response(404, ErrorBody(CategoryNotFound));
      }
      if NameInUseByOther(categories, id, auth.userId, name) {
        return Response(409, ErrorBody(CategoryNameExists));
      }
      RenameRowsSpec(categories, nextCategoryId, id, auth.userId, name);
      assert matching[0] in matching;
      categories := RenameRows(categories, id, auth.userId, name);
      var updated := MatchingCategories(categories, id, auth.userId);
      resp := Response(200, CategoryBody(updated[0]));
    }

    /** DELETE /categories/:id (server/index.js:229-251): first the
        transactions named after the category, of every user, then the
        category row itself. */
    method DeleteCategory(header: Option<string>, id: nat) returns (resp: Response)
      requires Valid()
      modifies this`categories, this`transactions
      ensures Valid()
      ensures !Authenticate(header).Authenticated? ==>
        resp == Rejection(Authenticate(header)) && unchanged(this)
      ensures Authenticate(header).Authenticated? ==>
        var caller := Authenticate(header).userId;
        var matching := MatchingCategories(old(categories), id, caller);
        && (matching == [] ==>
              resp == Response(404, ErrorBody(CategoryNotFound)) && unchanged(this))
        && (matching != [] ==>
              && resp == Response(200, MessageBody(CategoryDeleted))
              && categories == DeleteCategoryRows(old(categories), id, caller)
              && (forall c :: c in categories <==> c in old(categories) && !CategoryMatches(c, id, caller))
              && transactions == CascadeRows(old(transactions), Some(matching[0].name))
              && (forall t :: t in transactions <==> t in old(transactions) && t.category != matching[0].name))
    {
      var auth := Authenticate(header);
      if !auth.Authenticated? {
        return Rejection(auth);
      }
      var name := CategoryNameOf(categories, id, auth.userId);
      CascadeRowsSpec(transactions, nextTransactionId, clock, name);
      transactions := CascadeRows(transactions, name);
      var deleted := MatchingCategories(categories, id, auth.userId);
      DeleteCategoryRowsSpec(categories, nextCategoryId, id, auth.userId);
      categories := DeleteCategoryRows(categories, id, auth.userId);
      if |deleted| == 0 {
        return Response(404, ErrorBody(CategoryNotFound));
      }
      resp := Response(200, MessageBody(CategoryDeleted));
    }
  }
}
