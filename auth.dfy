/** The `authenticateToken` middleware (server/index.js:24-33): the bearer
    token is the second space-separated word of the `Authorization` header;
    no token is a 401, a token that fails verification a 403, and otherwise
    the route's handler runs for the user id the token carries. */
module Auth {
  import opened SeqUtil
  import opened Crypto

  datatype AuthResult = MissingToken | InvalidToken | Authenticated(userId: nat)

  /** `authHeader && authHeader.split(' ')[1]`, None standing for `undefined`.
      An absent header gives no token; an empty header short-circuits to the
      empty string, which is a token (it is not `null`) that then fails
      verification. */
  function ExtractToken(header: Option<string>): (r: Option<string>)
    ensures header.None? ==> r.None?
    ensures header == Some("") ==> r == Some("")
    ensures header.Some? && header.value != "" && r.Some? ==> ' ' !in r.value
  {
    match header
    case None => None
    case Some(h) =>
      if h == "" then Some("")
      else
        var words := Split(h, ' ');
        if |words| >= 2 then Some(words[1]) else None
  }

  /** The middleware's decision for a request carrying `header`. */
  function Authenticate(header: Option<string>): AuthResult
  {
    match ExtractToken(header)
    case None => MissingToken
    case Some(token) =>
      match Verify(token)
      case None => InvalidToken
      case Some(userId) => Authenticated(userId)
  }

  /** The status `res.sendStatus` answers a rejected request with. */
  function RejectionStatus(a: AuthResult): (status: nat)
    requires !a.Authenticated?
    ensures status == 401 <==> a == MissingToken
    ensures status == 403 <==> a == InvalidToken
  {
    if a.MissingToken? then 401 else 403
  }

  /** The status text `res.sendStatus` puts in the body. */
  function RejectionText(a: AuthResult): string
    requires !a.Authenticated?
  {
    if a.MissingToken? then "Unauthorized" else "Forbidden"
  }

  /** A present header yields no token exactly when it is non-empty and
      has no space, i.e. has no second word. */
  lemma ExtractTokenMissing(h: string)
    ensures ExtractToken(Some(h)).None? <==> h != "" && ' ' !in h
  {
    if h != "" {
      match FirstIndexOf(h, ' ')
      case None =>
      case Some(k) =>
        assert Split(h, ' ') == [h[..k]] + Split(h[k + 1..], ' ');
    }
  }

  /** The token is the word right after the first space, whatever follows it. */
  lemma {:induction false} ExtractSecondWord(scheme: string, token: string, rest: string)
    requires ' ' !in scheme && ' ' !in token
    requires rest == [] || rest[0] == ' '
    ensures ExtractToken(Some(scheme + " " + token + rest)) == Some(token)
  {
    var h := scheme + " " + token + rest;
    assert h == scheme + [' '] + (token + rest);
    SplitAtFirst(scheme, token + rest, ' ');
    if rest == [] {
      assert token + rest == token;
      assert FirstIndexOf(token, ' ') == None;
    } else {
      assert token + rest == token + [' '] + rest[1..];
      SplitAtFirst(token, rest[1..], ' ');
    }
  }

  /** Authentication succeeds exactly for a token the server signed, with the
      id it was signed for. */
  lemma AuthenticatedIffSigned(header: Option<string>, userId: nat)
    ensures Authenticate(header) == Authenticated(userId) <==> ExtractToken(header) == Some(Sign(userId))
  {
    match ExtractToken(header)
    case None =>
    case Some(t) => VerifySigned(t, userId);
  }

  /** The header the client sends, `Bearer ${session}` with the token from
      login, authenticates as the user the token was issued to. */
  lemma BearerHeaderAuthenticates(userId: nat)
    ensures Authenticate(Some("Bearer " + Sign(userId))) == Authenticated(userId)
  {
    SignedHasNoSpace(userId);
    ExtractSecondWord("Bearer", Sign(userId), "");
    assert "Bearer " + Sign(userId) == "Bearer" + " " + Sign(userId) + "";
    AuthenticatedIffSigned(Some("Bearer " + Sign(userId)), userId);
  }
}
