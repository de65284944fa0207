/** The `register` and `login` handlers, as transitions of the user
    collection.

    bcrypt and jsonwebtoken are left uninterpreted: a `Hasher` is a pair of
    functions, and a token is the claim (`id`) together with the requested
    lifetime. Everything a handler gets from outside its arguments (the salt
    bcrypt draws, the fresh `_id`, the clock, `JWT_SECRET`, and which awaited
    calls reject) arrives in an `Env`. The handlers are atomic: concurrent
    requests are not modelled. */
module AuthController {
  import opened Wrappers
  import opened UserModel

  /** The random salt bcrypt draws on each `hash` call. */
  type Salt = nat

  /** `bcrypt.hash(password, salt)` and `bcrypt.compare(password, digest)`. */
  datatype Hasher = Hasher(hash: (string, Salt) -> string, compare: (string, string) -> bool)

  /** The one law the handlers rely on: a password matches its own digests. */
  ghost predicate SoundHasher(h: Hasher) {
    forall p, salt :: h.compare(p, h.hash(p, salt))
  }

  /** The `expiresIn` option passed to `jwt.sign`. */
  const TokenLifetime := "1h"

  /** A signed token, reduced to its claim and its requested lifetime. */
  datatype Token = Token(id: ObjectId, expiresIn: string)

  /** `jwt.sign({ id }, JWT_SECRET, { expiresIn: "1h" })`, which throws when
      the secret is unset or empty. */
  function Sign(id: ObjectId, secret: Option<string>): (t: Option<Token>)
    ensures t.Some? <==> secret.Some? && secret.value != ""
    ensures t.Some? ==> t.value.id == id && t.value.expiresIn == TokenLifetime
  {
    if secret.Some? && secret.value != "" then Some(Token(id, TokenLifetime)) else None
  }

  /** The awaited calls that may reject. */
  datatype Stage = FindStage | HashStage | SaveStage | CompareStage

  datatype Env = Env(
    hasher: Hasher,
    salt: Salt,
    freshId: ObjectId,
    now: Timestamp,
    secret: Option<string>,
    failing: set<Stage>)

  /** The only projection of a record a response carries. */
  datatype PublicView = PublicView(username: Option<string>, role: Option<string>, company: Option<string>)

  datatype Body =
    | Message(message: string)
    | Authenticated(message: string, token: Token, user: PublicView)

  datatype Response = Response(status: int, body: Body)

  datatype RegisterBody = RegisterBody(username: string, password: string, email: string)

  datatype LoginBody = LoginBody(username: string, password: string)

  const RegisteredMessage := "User registered successfully"
  const DuplicateMessage := "Username already exists"
  const RegistrationFailed := "Registration failed"
  const NotFoundMessage := "User not found"
  const InvalidMessage := "Invalid credentials"
  const LoggedInMessage := "Logged In"
  const LoginFailed := "Login failed"

  function ViewOf(r: Record): PublicView {
    PublicView(r.username, r.role, r.company)
  }

  /** The document `register` constructs: the defaults `User` and `Company`,
      the e-mail as given, and the digest in place of the password. */
  function NewUser(req: RegisterBody, env: Env): (r: Record)
    ensures r.id == env.freshId && r.createdAt == env.now
    ensures r.username == Some(req.username) && r.email == Some(req.email)
    ensures r.password == Some(env.hasher.hash(req.password, env.salt))
    ensures r.role == Some("User") && r.company == Some("Company")
  {
    var digest := env.hasher.hash(req.password, env.salt);
    NewDocument(Candidate(Some(req.username), Some(req.email), Some(digest), Some("User"), Some("Company"), None),
                env.freshId, env.now)
  }

  /** `register`: a taken username is refused with 400 and nothing stored; a
      fresh one is stored once and answered with 201, a token for the new
      `_id` and the public view. A thrown failure gives the generic 500, and
      since the document is saved before the token is signed, a signing
      failure leaves it stored. */
  function Register(store: Collection, req: RegisterBody, env: Env): (out: (Collection, Response))
    ensures out.1.status in {201, 400, 500}
    ensures out.1.status == 400 <==> FindStage !in env.failing && FindOne(store, req.username).Some?
    ensures out.1.status == 400 ==> out.0 == store && out.1.body == Message(DuplicateMessage)
    ensures out.1.status == 500 ==> out.1.body == Message(RegistrationFailed)
    ensures out.0 == store || (FindOne(store, req.username).None? && out.0 == Save(store, NewUser(req, env)))
    ensures out.0 != store <==>
      && FindStage !in env.failing && FindOne(store, req.username).None?
      && HashStage !in env.failing && SaveStage !in env.failing
    ensures out.1.status == 201 <==>
      && FindStage !in env.failing && FindOne(store, req.username).None?
      && HashStage !in env.failing && SaveStage !in env.failing
      && Sign(env.freshId, env.secret).Some?
    ensures out.1.status == 201 ==>
      && out.0 == Save(store, NewUser(req, env))
      && out.1.body == Authenticated(RegisteredMessage, Token(env.freshId, TokenLifetime),
                                     PublicView(Some(req.username), Some("User"), Some("Company")))
  {
    if FindStage in env.failing then (store, Response(500, Message(RegistrationFailed)))
    else if FindOne(store, req.username).Some? then (store, Response(400, Message(DuplicateMessage)))
    else if HashStage in env.failing then (store, Response(500, Message(RegistrationFailed)))
    else
      var user := NewUser(req, env);
      if SaveStage in env.failing then (store, Response(500, Message(RegistrationFailed)))
      else
        var saved := Save(store, user);
        match Sign(user.id, env.secret)
        case None => (saved, Response(500, Message(RegistrationFailed)))
        case Some(token) => (saved, Response(201, Authenticated(RegisteredMessage, token, ViewOf(user))))
  }

  /** Whether `login` would find `u` and accept `password` for it. */
  predicate Accepts(store: Collection, u: string, password: string, env: Env) {
    var found := FindOne(store, u);
    found.Some? && found.value.password.Some? && CompareStage !in env.failing
    && env.hasher.compare(password, found.value.password.value)
  }

  /** `login`: an unknown username and a wrong password are told apart (both
      401); matching credentials give 200 with a token for that record's
      `_id` and its public view; a thrown failure (including `compare` on a
      record without a password) gives the generic 500. The result holds no
      collection: logging in never changes it. */
  function Login(store: Collection, req: LoginBody, env: Env): (resp: Response)
    ensures resp.status in {200, 401, 500}
    ensures resp.body == Message(NotFoundMessage) <==>
      FindStage !in env.failing && FindOne(store, req.username).None?
    ensures resp.body == Message(InvalidMessage) <==>
      && FindStage !in env.failing && FindOne(store, req.username).Some?
      && FindOne(store, req.username).value.password.Some? && CompareStage !in env.failing
      && !env.hasher.compare(req.password, FindOne(store, req.username).value.password.value)
    ensures resp.status == 401 <==> resp.body in {Message(NotFoundMessage), Message(InvalidMessage)}
    ensures resp.status == 500 ==> resp.body == Message(LoginFailed)
    ensures resp.status == 200 <==>
      FindStage !in env.failing && Accepts(store, req.username, req.password, env) && Sign(0, env.secret).Some?
    ensures resp.status == 200 ==>
      var r := FindOne(store, req.username).value;
      resp.body == Authenticated(LoggedInMessage, Token(r.id, TokenLifetime), ViewOf(r))
  {
    if FindStage in env.failing then Response(500, Message(LoginFailed))
    else match FindOne(store, req.username)
      case None => Response(401, Message(NotFoundMessage))
      case Some(user) =>
        if CompareStage in env.failing || user.password.None? then Response(500, Message(LoginFailed))
        else if !env.hasher.compare(req.password, user.password.value) then Response(401, Message(InvalidMessage))
        else match Sign(user.id, env.secret)
          case None => Response(500, Message(LoginFailed))
          case Some(token) => Response(200, Authenticated(LoggedInMessage, token, ViewOf(user)))
  }

  // ----- the server as a state machine -----

  datatype Request = RegisterRequest(register: RegisterBody) | LoginRequest(login: LoginBody)

  /** One request served: a login is answered from the collection without
      touching it, a register is the `register` transition; either way every
      document already stored stays where and as it was. */
  function Handle(store: Collection, req: Request, env: Env): (out: (Collection, Response))
    ensures req.LoginRequest? ==> out == (store, Login(store, req.login, env))
    ensures req.RegisterRequest? ==> out == Register(store, req.register, env)
    ensures |out.0| >= |store| && out.0[..|store|] == store
  {
    match req
    case RegisterRequest(body) => Register(store, body, env)
    case LoginRequest(body) => (store, Login(store, body, env))
  }

  /** The collection after serving `reqs` one after another. No request
      deletes or rewrites a document: the collection only grows at its end. */
  function Run(store: Collection, reqs: seq<Request>, envs: seq<Env>): (c: Collection)
    requires |envs| == |reqs|
    ensures |c| >= |store| && c[..|store|] == store
    decreases |reqs|
  {
    if reqs == [] then store
    else
      var next := Handle(store, reqs[0], envs[0]).0;
      var c := Run(next, reqs[1..], envs[1..]);
      assert c[..|store|] == next[..|store|];
      c
  }

  /** A register keeps the usernames unique. */
  lemma RegisterKeepsUsernamesUnique(store: Collection, req: RegisterBody, env: Env)
    requires UniqueUsernames(store)
    ensures UniqueUsernames(Register(store, req, env).0)
  {
    if Register(store, req, env).0 != store {
      SaveFreshKeepsUnique(store, NewUser(req, env));
    }
  }

  /** When every insert goes through `register` and requests are served one
      at a time, no two documents ever share a username. */
  lemma {:induction false} RunKeepsUsernamesUnique(store: Collection, reqs: seq<Request>, envs: seq<Env>)
    requires |envs| == |reqs|
    requires UniqueUsernames(store)
    ensures UniqueUsernames(Run(store, reqs, envs))
    decreases |reqs|
  {
    if reqs != [] {
      if reqs[0].RegisterRequest? {
        RegisterKeepsUsernamesUnique(store, reqs[0].register, envs[0]);
      }
      RunKeepsUsernamesUnique(Handle(store, reqs[0], envs[0]).0, reqs[1..], envs[1..]);
    }
  }

  /** Any number of logins leaves the collection as it was. */
  lemma {:induction false} LoginsLeaveStore(store: Collection, reqs: seq<Request>, envs: seq<Env>)
    requires |envs| == |reqs|
    requires forall k :: 0 <= k < |reqs| ==> reqs[k].LoginRequest?
    ensures Run(store, reqs, envs) == store
    decreases |reqs|
  {
    if reqs != [] {
      LoginsLeaveStore(store, reqs[1..], envs[1..]);
    }
  }

  /** Read through the username index, `register` is a map update: either
      the index is unchanged or it gains exactly the new username. */
  lemma RegisterUpdatesIndex(store: Collection, req: RegisterBody, env: Env)
    ensures var out := Register(store, req, env).0;
      || Index(out) == Index(store)
      || (req.username !in Index(store) && Index(out) == Index(store)[req.username := NewUser(req, env)])
  {
    if Register(store, req, env).0 != store {
      SaveFreshExtendsIndex(store, NewUser(req, env));
      IndexIsFindOne(store, req.username);
    }
  }

  /** Once `register` has stored `u`, a later `register` of `u` is refused
      with 400 whatever the e-mail and password, including the retry after a
      signing failure answered 500. */
  lemma RegisterTwiceRefused(store: Collection, first: RegisterBody, env1: Env, second: RegisterBody, env2: Env)
    requires Register(store, first, env1).0 != store
    requires second.username == first.username
    requires FindStage !in env2.failing
    ensures var store' := Register(store, first, env1).0;
      Register(store', second, env2) == (store', Response(400, Message(DuplicateMessage)))
  {
    var store' := Register(store, first, env1).0;
    FindOneAppend(store, NewUser(first, env1), first.username);
  }

  /** With a missing secret the document is stored although the client sees
      the generic 500. */
  lemma SigningFailureStillStores(store: Collection, req: RegisterBody, env: Env)
    requires env.failing == {} && FindOne(store, req.username).None?
    requires env.secret == None
    ensures Register(store, req, env) == (Save(store, NewUser(req, env)), Response(500, Message(RegistrationFailed)))
  {
  }

  /** A username registered with a password can log in with that password,
      receiving a token for the new document and its public view. */
  lemma RegisterThenLogin(store: Collection, req: RegisterBody, env1: Env, env2: Env)
    requires SoundHasher(env1.hasher) && env2.hasher == env1.hasher
    requires Register(store, req, env1).0 != store
    requires env2.failing == {} && Sign(0, env2.secret).Some?
    ensures Login(Register(store, req, env1).0, LoginBody(req.username, req.password), env2)
      == Response(200, Authenticated(LoggedInMessage, Token(env1.freshId, TokenLifetime),
                                     PublicView(Some(req.username), Some("User"), Some("Company"))))
  {
    var user := NewUser(req, env1);
    FindOneAppend(store, user, req.username);
    assert env1.hasher.compare(req.password, env1.hasher.hash(req.password, env1.salt));
  }

  /** Records that agree on everything but e-mail and creation time. */
  ghost predicate SameButEmail(a: Collection, b: Collection) {
    |a| == |b| &&
    forall k :: 0 <= k < |a| ==> a[k] == b[k].(email := a[k].email, createdAt := a[k].createdAt)
  }

  lemma {:induction false} SameButEmailFind(a: Collection, b: Collection, u: string)
    requires SameButEmail(a, b)
    ensures FindIndex(a, u) == FindIndex(b, u)
    decreases |a|
  {
    if a != [] {
      assert a[0].username == b[0].username;
      SameButEmailFind(a[1..], b[1..], u);
    }
  }

  /** The e-mail stored with an account never influences a login response. */
  lemma LoginIgnoresEmail(a: Collection, b: Collection, req: LoginBody, env: Env)
    requires SameButEmail(a, b)
    ensures Login(a, req, env) == Login(b, req, env)
  {
    SameButEmailFind(a, b, req.username);
  }

  /** The `register` response depends on the username alone among the request
      fields: neither the e-mail nor the password can show up in it. */
  lemma RegisterResponseIgnoresSecrets(store: Collection, req1: RegisterBody, req2: RegisterBody, env: Env)
    requires req1.username == req2.username
    ensures Register(store, req1, env).1 == Register(store, req2, env).1
  {
  }
}
