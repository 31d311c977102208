/** Stand-ins for the two cryptographic libraries the server calls: bcrypt
    (salted password hashing, cost factor 10) and JSON Web Tokens (signing a
    `{ userId }` payload). Each is an encoding with a checking function, so
    that exactly the properties the server relies on hold: a password
    matches a hash of a password with the same first 72 characters and no
    other, and a token verifies exactly when the server signed it, yielding
    the signed user id. */
module Crypto {
  import opened SeqUtil

  predicate IsDigit(c: char) { '0' <= c <= '9' }

  predicate AllDigits(s: string) { forall i :: 0 <= i < |s| ==> IsDigit(s[i]) }

  /** The decimal numeral of `n`, without leading zeros. */
  function Decimal(n: nat): (r: string)
    ensures |r| >= 1 && AllDigits(r)
  {
    if n < 10 then [('0' as int + n) as char]
    else Decimal(n / 10) + [('0' as int + n % 10) as char]
  }

  /** The value of a decimal numeral. */
  function ParseDecimal(s: string): nat
    requires AllDigits(s)
  {
    if s == [] then 0
    else ParseDecimal(s[..|s| - 1]) * 10 + (s[|s| - 1] as int - '0' as int)
  }

  /** Reading back a numeral gives the number it was written from. */
  lemma {:induction false} ParseDecimalOfDecimal(n: nat)
    ensures ParseDecimal(Decimal(n)) == n
  {
    if n >= 10 {
      var d := Decimal(n);
      assert d[..|d| - 1] == Decimal(n / 10);
      ParseDecimalOfDecimal(n / 10);
    }
  }

  // ---------------------------------------------------------------- bcrypt

  /** The bcrypt version and cost prefix: `bcrypt.genSalt(10)`. */
  const HashPrefix: string := "$2a$10$"

  /** bcrypt reads at most this many leading units of a password. */
  const MaxPasswordLength: nat := 72

  /** The part of a password bcrypt reads: its first 72 characters. */
  function Truncate(password: string): (r: string)
    ensures |r| <= MaxPasswordLength
    ensures |password| <= MaxPasswordLength ==> r == password
    ensures |password| > MaxPasswordLength ==> r == password[..MaxPasswordLength]
  {
    if |password| <= MaxPasswordLength then password else password[..MaxPasswordLength]
  }

  /** `bcrypt.hash(password, salt)`, the salt being the random value
      `genSalt` draws, here a parameter. Only the truncated password enters
      the hash. */
  function HashPassword(salt: nat, password: string): string
  {
    HashPrefix + Decimal(salt) + "$" + Truncate(password)
  }

  /** `bcrypt.compare(password, hash)`: re-derives the hash of the truncated
      password with the salt stored in the hash, and compares. */
  function CheckPassword(password: string, hash: string): bool
  {
    |hash| >= |HashPrefix| && hash[..|HashPrefix|] == HashPrefix &&
    var rest := hash[|HashPrefix|..];
    match FirstIndexOf(rest, '$')
    case None => false
    case Some(k) => k >= 1 && AllDigits(rest[..k]) && rest[k + 1..] == Truncate(password)
  }

  /** An attempt matches a stored hash exactly when it agrees with the hashed
      password on the part bcrypt reads (`bcrypt.compare` at
      server/index.js:78 against the hash stored at server/index.js:49-50). */
  lemma CheckPasswordOfHash(salt: nat, password: string, attempt: string)
    ensures CheckPassword(attempt, HashPassword(salt, password)) <==> Truncate(attempt) == Truncate(password)
  {
    var d := Decimal(salt);
    var t := Truncate(password);
    var h := HashPassword(salt, password);
    assert h == HashPrefix + (d + "$" + t);
    assert h[..|HashPrefix|] == HashPrefix && h[|HashPrefix|..] == d + "$" + t;
    HashLayout(d, t);
  }

  /** Helper for CheckPasswordOfHash: after the prefix, the first `$` of a
      hash ends the salt, which is all digits, and the rest is the hashed
      password. */
  lemma HashLayout(d: string, t: string)
    requires AllDigits(d)
    ensures FirstIndexOf(d + "$" + t, '$') == Some(|d|)
    ensures (d + "$" + t)[..|d|] == d && (d + "$" + t)[|d| + 1..] == t
  {
    assert '$' !in d by {
      forall i | 0 <= i < |d| ensures d[i] != '$' { assert IsDigit(d[i]); }
    }
    FirstIndexOfAfter(d, t, '$');
    assert d + "$" + t == d + ['$'] + t;
  }

  /** Passwords within the limit match their own hash and no other. */
  lemma CheckShortPassword(salt: nat, password: string, attempt: string)
    requires |password| <= MaxPasswordLength && |attempt| <= MaxPasswordLength
    ensures CheckPassword(attempt, HashPassword(salt, password)) <==> attempt == password
  {
    CheckPasswordOfHash(salt, password, attempt);
  }

  /** Two passwords longer than the limit that share their first 72
      characters are interchangeable at login. */
  lemma LongPasswordsCollide(salt: nat, password: string, attempt: string)
    requires |password| > MaxPasswordLength && |attempt| > MaxPasswordLength
    requires password[..MaxPasswordLength] == attempt[..MaxPasswordLength]
    ensures CheckPassword(attempt, HashPassword(salt, password))
  {
    CheckPasswordOfHash(salt, password, attempt);
  }

  // ---------------------------------------------------------------- JWT

  /** The encoding of a signed `{ userId }` payload. */
  const TokenPrefix: string := "jwt."

  /** `jwt.sign({ userId }, JWT_SECRET, ...)`. */
  function Sign(userId: nat): string
  {
    TokenPrefix + Decimal(userId)
  }

  /** `jwt.verify(token, JWT_SECRET)`: the payload's `userId` when the token
      is one the server signed, None (an error) otherwise. */
  function Verify(token: string): Option<nat>
  {
    if |token| > |TokenPrefix| && token[..|TokenPrefix|] == TokenPrefix
       && AllDigits(token[|TokenPrefix|..])
       && Decimal(ParseDecimal(token[|TokenPrefix|..])) == token[|TokenPrefix|..]
    then Some(ParseDecimal(token[|TokenPrefix|..]))
    else None
  }

  /** A signed token verifies to the id it was signed for, and only signed
      tokens verify: `Verify(t) == Some(id)` exactly when `t == Sign(id)`. */
  lemma VerifySigned(token: string, userId: nat)
    ensures Verify(token) == Some(userId) <==> token == Sign(userId)
  {
    var s := Sign(userId);
    assert s[..|TokenPrefix|] == TokenPrefix && s[|TokenPrefix|..] == Decimal(userId);
    ParseDecimalOfDecimal(userId);
    if Verify(token) == Some(userId) {
      assert token == TokenPrefix + token[|TokenPrefix|..];
    }
  }

  /** A signed token holds no space, so it survives the `Bearer <token>` header. */
  lemma SignedHasNoSpace(userId: nat)
    ensures ' ' !in Sign(userId)
  {
    var d := Decimal(userId);
    forall i | 0 <= i < |d| ensures d[i] != ' ' { assert IsDigit(d[i]); }
  }
}
