/**
 * Registration, login and the bearer-token check of the server
 * (backend/server.js:208-286). The user collection is an in-memory table;
 * bcrypt and JSON Web Tokens are foreign code and are modelled as symbolic
 * values: a password hash is the term `Digest(cost, salt, password)` and a
 * signed token is the term `Jwt(claims, secret, lifetime)`. Verifying a token
 * is a function the caller supplies.
 */
module Auth {
  import opened Wrappers
  import opened JsStrings

  type UserId = nat

  /** bcrypt's cost factor as the handler passes it (`bcrypt.hash(password, 10)`). */
  const BcryptCost: nat := 10

  /** Token validity, `expiresIn: '24h'`, in seconds. */
  const TokenLifetime: nat := 24 * 60 * 60

  /** The signing key used when `JWT_SECRET` is unset or empty. */
  const FallbackSecret: string := "your-secret-key"

  /**
   * A bcrypt hash as a symbolic term. The model treats bcrypt as ideal: a
   * hash matches exactly the password it was made from.
   */
  datatype PasswordHash = Digest(cost: nat, salt: nat, password: string)

  datatype User = User(id: UserId, name: string, email: string, passwordHash: PasswordHash)

  /** The claims a token carries: `{ userId, email }`. */
  datatype Claims = Claims(userId: UserId, email: string)

  /** A signed token as a symbolic term: the claims, the signing key and the lifetime. */
  datatype Jwt = Jwt(claims: Claims, secret: string, lifetime: nat)

  /** The user record returned to the client: no password hash. */
  datatype PublicUser = PublicUser(id: UserId, name: string, email: string)

  /** A successful register or login response: `{ token, user }`. */
  datatype Session = Session(token: Jwt, user: PublicUser)

  /** The two 400 responses: "User already exists" and "Invalid credentials". */
  datatype AuthError = UserAlreadyExists | InvalidCredentials

  /** `bcrypt.hash(password, 10)`, with the random salt supplied by the caller. */
  function Hash(password: string, salt: nat): PasswordHash {
    Digest(BcryptCost, salt, password)
  }

  /** `bcrypt.compare(password, hash)`. */
  predicate Compare(password: string, hash: PasswordHash) {
    hash.password == password
  }

  /** `process.env.JWT_SECRET || 'your-secret-key'`: an empty setting falls back too. */
  function SigningSecret(configured: Option<string>): (secret: string)
    ensures secret != []
    ensures configured.Some? && configured.value != [] ==> secret == configured.value
    ensures configured.None? || configured.value == [] ==> secret == FallbackSecret
  {
    if configured.Some? && configured.value != [] then configured.value else FallbackSecret
  }

  /** `jwt.sign({ userId, email }, secret, { expiresIn: '24h' })` and the response body. */
  function IssueSession(u: User, secret: string): (s: Session)
    ensures s.token.claims == Claims(u.id, u.email) && s.token.lifetime == TokenLifetime
    ensures s.token.secret == secret
    ensures s.user == PublicUser(u.id, u.name, u.email)
  {
    Session(Jwt(Claims(u.id, u.email), secret, TokenLifetime), PublicUser(u.id, u.name, u.email))
  }

  /** `User.findOne({ email })`: the first stored user with that email. */
  function FindByEmail(users: seq<User>, email: string): (r: Option<User>)
    ensures r.Some? ==> r.value in users && r.value.email == email
    ensures r.None? <==> forall u :: u in users ==> u.email != email
  {
    if users == [] then None
    else if users[0].email == email then Some(users[0])
    else FindByEmail(users[1..], email)
  }

  /** No two stored users share an email. */
  predicate EmailsUnique(users: seq<User>) {
    forall i, j :: 0 <= i < j < |users| ==> users[i].email != users[j].email
  }

  /** Every stored user has an id below `next`, and no two share an id. */
  predicate IdsFresh(users: seq<User>, next: UserId) {
    && (forall i :: 0 <= i < |users| ==> users[i].id < next)
    && (forall i, j :: 0 <= i < j < |users| ==> users[i].id != users[j].id)
  }

  /** With unique emails, the user found by email is the only one with it. */
  lemma {:induction false} FindByEmailUnique(users: seq<User>, u: User)
    requires EmailsUnique(users) && u in users
    ensures FindByEmail(users, u.email) == Some(u)
  {
    if users[0] != u {
      assert u in users[1..];
      var k :| 0 <= k < |users| && users[k] == u;
      assert users[0].email != u.email;
      FindByEmailUnique(users[1..], u);
    }
  }

  /**
   * The login handler (backend/server.js:258-286). An unknown email and a
   * wrong password give the same error; on success the token's claims are the
   * stored user's id and email.
   */
  function Login(users: seq<User>, email: string, password: string, secret: string): (r: Result<Session, AuthError>)
    ensures r.Err? ==> r.error == InvalidCredentials
    ensures r.Ok? <==> FindByEmail(users, email).Some? && Compare(password, FindByEmail(users, email).value.passwordHash)
    ensures r.Ok? ==> r.value == IssueSession(FindByEmail(users, email).value, secret)
  {
    match FindByEmail(users, email)
    case None => Err(InvalidCredentials)
    case Some(u) =>
      if !Compare(password, u.passwordHash) then Err(InvalidCredentials)
      else Ok(IssueSession(u, secret))
  }

  /**
   * When emails are unique, login succeeds exactly for a stored user's email
   * with the password that user registered, and its token names that user.
   */
  lemma LoginAcceptsStoredCredentials(users: seq<User>, u: User, password: string, salt: nat, secret: string)
    requires EmailsUnique(users) && u in users
    ensures Login(users, u.email, password, secret).Ok? <==> Compare(password, u.passwordHash)
    ensures Compare(password, u.passwordHash) ==>
      Login(users, u.email, password, secret) == Ok(IssueSession(u, secret))
  {
    FindByEmailUnique(users, u);
  }

  /** A stored hash accepts the password it was made from and no other. */
  lemma CompareHash(password: string, attempt: string, salt: nat)
    ensures Compare(attempt, Hash(password, salt)) <==> attempt == password
  {
  }

  /** Adding a user whose email is not yet stored keeps emails unique. */
  lemma AddKeepsEmailsUnique(users: seq<User>, u: User)
    requires EmailsUnique(users) && FindByEmail(users, u.email).None?
    ensures EmailsUnique(users + [u])
  {
    var us := users + [u];
    forall i, j | 0 <= i < j < |us| ensures us[i].email != us[j].email {
      if j == |users| {
        assert us[i] == users[i] && users[i] in users;
      } else {
        assert us[i] == users[i] && us[j] == users[j];
      }
    }
  }

  /** The user collection, with the counter that hands out fresh ids. */
  class UserTable {
    var users: seq<User>
    var nextId: UserId

    ghost predicate Valid()
      reads this
    {
      EmailsUnique(users) && IdsFresh(users, nextId)
    }

    constructor ()
      ensures Valid() && users == [] && nextId == 0
    {
      users := [];
      nextId := 0;
    }

    /**
     * The register handler (backend/server.js:228-255): an email already
     * stored is refused and nothing changes; otherwise exactly one user is
     * added, with the hashed password and a fresh id, and a session for that
     * user is returned. `salt` is bcrypt's random salt.
     */
    method Register(name: string, email: string, password: string, salt: nat, secret: string)
      returns (r: Result<Session, AuthError>)
      requires Valid()
      modifies this
      ensures Valid()
      ensures FindByEmail(old(users), email).Some? ==>
        r == Err(UserAlreadyExists) && users == old(users) && nextId == old(nextId)
      ensures FindByEmail(old(users), email).None? ==>
        var u := User(old(nextId), name, email, Hash(password, salt));
        && users == old(users) + [u]
        && nextId == old(nextId) + 1
        && r == Ok(IssueSession(u, secret))
      ensures r.Ok? ==> Login(users, email, password, secret) == r
    {
      var existingUser := FindByEmail(users, email);
      if existingUser.Some? {
        return Err(UserAlreadyExists);
      }
      var hashedPassword := Hash(password, salt);
      var user := User(nextId, name, email, hashedPassword);
      AddKeepsEmailsUnique(users, user);
      users := users + [user];
      nextId := nextId + 1;
      r := Ok(IssueSession(user, secret));
      LoginAcceptsStoredCredentials(users, user, password, salt, secret);
    }
  }

  /**
   * `authHeader && authHeader.split(' ')[1]`: the second space-separated
   * field of the header, when there is one and it is not empty. The scheme
   * word before it is not checked.
   */
  function BearerToken(header: Option<string>): (token: Option<string>)
    ensures token.Some? ==> token.value != [] && ' ' !in token.value
  {
    if header.None? then None
    else
      var parts := Split(header.value, ' ');
      if |parts| < 2 || parts[1] == [] then None else Some(parts[1])
  }

  /**
   * A header made of a scheme word, one space, a token and then nothing or
   * more space-separated text yields that token.
   */
  lemma BearerTokenOfHeader(scheme: string, token: string, rest: string)
    requires ' ' !in scheme && ' ' !in token && token != []
    requires rest == [] || rest[0] == ' '
    ensures BearerToken(Some(scheme + [' '] + token + rest)) == Some(token)
  {
    var h := scheme + [' '] + token + rest;
    var i := |scheme|;
    assert h[..i] == scheme && h[i] == ' ';
    IndexOfAt(h, ' ', i);
    assert h[i + 1..] == token + rest;
    FirstField(token, rest);
    TokenAfterFirstSpace(h, i);
  }

  /** The token is the first field of the text after the header's first space. */
  lemma TokenAfterFirstSpace(h: string, i: nat)
    requires IndexOf(h, ' ') == Some(i)
    ensures Split(h[i + 1..], ' ')[0] != [] ==> BearerToken(Some(h)) == Some(Split(h[i + 1..], ' ')[0])
  {
  }

  /** The first space-separated field of `token + rest` is `token`. */
  lemma FirstField(token: string, rest: string)
    requires ' ' !in token
    requires rest == [] || rest[0] == ' '
    ensures Split(token + rest, ' ')[0] == token
  {
    var tail := token + rest;
    assert tail[..|token|] == token;
    IndexOfAt(tail, ' ', |token|);
    if rest == [] {
      assert tail == token;
    }
  }

  /**
   * Conversely, a token comes only from such a header: the text before the
   * first space holds no space, the token follows that space, and the token
   * ends the header or is followed by a space.
   */
  lemma BearerTokenShape(h: string)
    requires BearerToken(Some(h)).Some?
    ensures var t := BearerToken(Some(h)).value;
      var i := IndexOf(h, ' ').value;
      && ' ' !in h[..i]
      && i + 1 + |t| <= |h|
      && h[i + 1..i + 1 + |t|] == t
      && (i + 1 + |t| == |h| || h[i + 1 + |t|] == ' ')
  {
    var t := BearerToken(Some(h)).value;
    var i := IndexOf(h, ' ').value;
    var tail := h[i + 1..];
    assert Split(h, ' ') == [h[..i]] + Split(tail, ' ');
    assert t == Split(tail, ' ')[0];
    match IndexOf(tail, ' ')
    case None =>
      assert t == tail;
    case Some(j) =>
      assert t == tail[..j];
      assert h[i + 1..i + 1 + j] == tail[..j];
  }

  /** The middleware's three outcomes: 401 "Access token required", 403 "Invalid token", or the request goes on. */
  datatype Gate = TokenRequired | InvalidToken | Authorized(user: Claims)

  /**
   * `authenticateToken` (backend/server.js:208-223). `verify` stands for
   * `jwt.verify(token, secret)`, which yields the decoded claims or fails.
   */
  function Authenticate(header: Option<string>, secret: string, verify: (string, string) -> Option<Claims>): (g: Gate)
    ensures g == TokenRequired <==> BearerToken(header).None?
    ensures g.Authorized? ==> verify(BearerToken(header).value, secret) == Some(g.user)
    ensures g == InvalidToken ==> verify(BearerToken(header).value, secret).None?
  {
    match BearerToken(header)
    case None => TokenRequired
    case Some(token) =>
      match verify(token, secret)
      case None => InvalidToken
      case Some(claims) => Authorized(claims)
  }

  /**
   * Without a token the outcome is "token required" whatever the verifier
   * would say: the verifier is not consulted.
   */
  lemma MissingTokenSkipsVerify(header: Option<string>, secret: string, v1: (string, string) -> Option<Claims>, v2: (string, string) -> Option<Claims>)
    requires header.None? || ' ' !in header.value
    ensures Authenticate(header, secret, v1) == Authenticate(header, secret, v2) == TokenRequired
  {
    if header.Some? {
      assert Split(header.value, ' ') == [header.value];
    }
  }
}
