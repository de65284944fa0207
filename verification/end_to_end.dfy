/** The client and the server together: how a controller response settles
    the client's request, and what the forms then show or store. */
module EndToEnd {
  import opened Wrappers
  import opened Text
  import opened Session
  import opened Routing
  import AC = AuthController
  import UM = UserModel
  import Api
  import AF = AuthForm
  import RF = RegisterForm
  import HP = Homepage

  /** How the HTTP client settles a request for a controller response. axios
      resolves on any 2xx status whatever the body and rejects on every other
      status, carrying the body's `message`. Only a 2xx with a token is
      accepted here; that loses nothing, since every 2xx the controllers send
      carries a token (`ResponsesAreWellFormed`). */
  function ToReply(resp: AC.Response, tokenText: AC.Token -> string): (reply: Api.Reply)
    ensures reply.Accepted? <==> 200 <= resp.status < 300 && resp.body.Authenticated?
    ensures reply.Accepted? ==> reply.user.username == resp.body.user.username
    ensures reply.Refused? && resp.body.Message? ==> reply.message == Some(resp.body.message)
  {
    if 200 <= resp.status < 300 && resp.body.Authenticated? then
      var v := resp.body.user;
      Api.Accepted(tokenText(resp.body.token), SessionUser(v.username, v.role, v.company))
    else Api.Refused(if resp.body.Message? then Some(resp.body.message) else None)
  }

  /** The controllers answer 2xx exactly with a token, and every other
      status with a non-empty message, so every rejection the client sees
      carries the server's text. */
  lemma ResponsesAreWellFormed(store: UM.Collection, reg: AC.RegisterBody, login: AC.LoginBody, env: AC.Env)
    ensures var r := AC.Register(store, reg, env).1;
      (200 <= r.status < 300 <==> r.body.Authenticated?) && (r.body.Message? ==> r.body.message != "")
    ensures var r := AC.Login(store, login, env);
      (200 <= r.status < 300 <==> r.body.Authenticated?) && (r.body.Message? ==> r.body.message != "")
  {
    var r := AC.Login(store, login, env);
    if r.status == 401 {
      assert r.body in {AC.Message(AC.NotFoundMessage), AC.Message(AC.InvalidMessage)};
    }
  }

  // ----- the texts the patterns see -----
  // Each lemma receives a lower-cased controller message as a parameter
  // fixed by its precondition, so the solver reasons about that one string
  // rather than re-expanding the literal wherever it is used.

  lemma NotFoundText(lower: string)
    requires lower == "user not found"
    ensures Occurs(lower, "user not found")
  {
    assert OccursAt(lower, "user not found", 0);
  }

  lemma InvalidText(lower: string)
    requires lower == "invalid credentials"
    ensures !Occurs(lower, "user not found") && Occurs(lower, "invalid credentials")
  {
    assert OccursAt(lower, "invalid credentials", 0);
    assert 'u' !in lower;
    ContainsNeedsChar(lower, "user not found", 0);
    ContainsMeansOccurs(lower, "user not found");
  }

  lemma LoginFailedText(lower: string)
    requires lower == "login failed"
    ensures !Occurs(lower, "user not found") && !Occurs(lower, "invalid credentials")
  {
    assert 'u' !in lower && 'v' !in lower;
    ContainsNeedsChar(lower, "user not found", 0);
    ContainsNeedsChar(lower, "invalid credentials", 2);
    ContainsMeansOccurs(lower, "user not found");
    ContainsMeansOccurs(lower, "invalid credentials");
  }

  lemma DuplicateText(lower: string)
    requires lower == "username already exists"
    ensures !ThenOnLine(lower, "email", "exists") && ThenOnLine(lower, "username", "exists")
  {
    assert OccursAt(lower, "username", 0);
    assert OccursAt(lower, "exists", 17);
    assert OnOneLine(lower, 8, 17);
    assert ThenAt(lower, "username", "exists", 0);
    forall i ensures !ThenAt(lower, "email", "exists", i) {
      if 0 <= i && i + 5 <= |lower| {
        assert lower[i..i + 5][1] == lower[i + 1] && lower[i..i + 5][0] == lower[i];
        if lower[i + 1] == 'm' {
          assert i == 5;
        }
      }
    }
  }

  lemma RegistrationFailedText(lower: string)
    requires lower == "registration failed"
    ensures !ThenOnLine(lower, "email", "exists") && !ThenOnLine(lower, "username", "exists")
    ensures !ThenOnLine(lower, "password", "6")
  {
    assert 'm' !in lower && 'u' !in lower && 'w' !in lower;
    ThenNeedsChar(lower, "email", "exists", 1);
    ThenNeedsChar(lower, "username", "exists", 0);
    ThenNeedsChar(lower, "password", "6", 4);
    ThenMeansThenOnLine(lower, "email", "exists");
    ThenMeansThenOnLine(lower, "username", "exists");
    ThenMeansThenOnLine(lower, "password", "6");
  }

  // ----- login -----

  /** An unknown username comes back as 401 and is shown under the username
      input. */
  lemma UnknownUserShownAtUsername(store: UM.Collection, req: AC.LoginBody, env: AC.Env,
                                   tokenText: AC.Token -> string, st: Storage, json: Json)
    requires AC.FindStage !in env.failing && UM.FindOne(store, req.username).None?
    ensures AF.OnLoginReply(ToReply(AC.Login(store, req, env), tokenText), st, json)
      == AF.LoginRejected(AF.FieldError(AF.UsernameField, "User not found"))
  {
    NotFoundText(Lower(AC.NotFoundMessage));
  }

  /** A wrong password comes back as 401 and is shown under the password
      input. */
  lemma WrongPasswordShownAtPassword(store: UM.Collection, req: AC.LoginBody, env: AC.Env,
                                     tokenText: AC.Token -> string, st: Storage, json: Json)
    requires AC.FindStage !in env.failing && AC.CompareStage !in env.failing
    requires UM.FindOne(store, req.username).Some?
    requires UM.FindOne(store, req.username).value.password.Some?
    requires !env.hasher.compare(req.password, UM.FindOne(store, req.username).value.password.value)
    ensures AF.OnLoginReply(ToReply(AC.Login(store, req, env), tokenText), st, json)
      == AF.LoginRejected(AF.FieldError(AF.PasswordField, "Invalid credentials"))
  {
    InvalidText(Lower(AC.InvalidMessage));
  }

  /** A server failure during login is shown above the form, as sent. */
  lemma LoginFailureShownAtRoot(store: UM.Collection, req: AC.LoginBody, env: AC.Env,
                                tokenText: AC.Token -> string, st: Storage, json: Json)
    requires AC.FindStage in env.failing
    ensures AF.OnLoginReply(ToReply(AC.Login(store, req, env), tokenText), st, json)
      == AF.LoginRejected(AF.FieldError(AF.RootField, "Login failed"))
  {
    LoginFailedText(Lower(AC.LoginFailed));
  }

  /** Accepted credentials open a session: the home page renders and its
      header greets the record's username ("User" when it has none). */
  lemma LoginOpensHome(store: UM.Collection, req: AC.LoginBody, env: AC.Env,
                       tokenText: AC.Token -> string, st: Storage, json: Json)
    requires LawfulJson(json)
    requires AC.Login(store, req, env).status == 200
    ensures var o := AF.OnLoginReply(ToReply(AC.Login(store, req, env), tokenText), st, json);
      && o.SignedIn?
      && RouteElement(o.goto, o.storage) == Render(HomePage)
      && var u := UM.FindOne(store, req.username).value.username;
         HP.Greeting(HP.CurrentUserName(o.storage, json)) == if Truthy(u) then u.value else "User"
  {
    var resp := AC.Login(store, req, env);
    var reply := ToReply(resp, tokenText);
    AF.LoginSuccessOpensSession(reply, st, json);
    HP.GreetsStoredUser(st, reply.token, reply.user, json);
  }

  // ----- registration through the combined form -----

  /** A taken username comes back as 400 and the combined form shows it under
      the username input. */
  lemma DuplicateShownAtUsername(store: UM.Collection, req: AC.RegisterBody, env: AC.Env,
                                 tokenText: AC.Token -> string, s: AF.FormState)
    requires AC.FindStage !in env.failing && UM.FindOne(store, req.username).Some?
    ensures AF.OnRegisterReply(s, ToReply(AC.Register(store, req, env).1, tokenText))
      == (s, Some(AF.FieldError(AF.UsernameField, "Username already exists")))
  {
    DuplicateText(Lower(AC.DuplicateMessage));
  }

  /** A server failure during registration is shown above the combined form,
      as sent. */
  lemma RegistrationFailureShownAtRoot(store: UM.Collection, req: AC.RegisterBody, env: AC.Env,
                                       tokenText: AC.Token -> string, s: AF.FormState)
    requires AC.Register(store, req, env).1.status == 500
    ensures AF.OnRegisterReply(s, ToReply(AC.Register(store, req, env).1, tokenText))
      == (s, Some(AF.FieldError(AF.RootField, "Registration failed")))
  {
    RegistrationFailedText(Lower(AC.RegistrationFailed));
  }

  // ----- registration through the stand-alone page -----

  /** A taken username comes back as 400 and the stand-alone page shows the
      server's text in its banner, storing nothing. */
  lemma DuplicateShownInBanner(store: UM.Collection, req: AC.RegisterBody, env: AC.Env,
                               tokenText: AC.Token -> string, page: RF.PageState, st: Storage, json: Json)
    requires AC.FindStage !in env.failing && UM.FindOne(store, req.username).Some?
    ensures var r := RF.OnReply(page, ToReply(AC.Register(store, req, env).1, tokenText), st, json);
      r.page.banner == Some("Username already exists") && r.storage == st && r.goto.None?
  {
  }

  /** A registration the server accepts signs the visitor in: the home page
      renders and greets the username typed into the form. */
  lemma RegisterPageOpensHome(store: UM.Collection, env: AC.Env, tokenText: AC.Token -> string,
                              page: RF.PageState, st: Storage, json: Json)
    requires LawfulJson(json)
    requires RF.ValidateForm(page.form) == map[]
    requires var req := AC.RegisterBody(page.form.username, page.form.password, page.form.email);
      AC.Register(store, req, env).1.status == 201
    ensures var req := AC.RegisterBody(page.form.username, page.form.password, page.form.email);
      var r := RF.OnReply(page, ToReply(AC.Register(store, req, env).1, tokenText), st, json);
      && RouteElement(r.goto.value, r.storage) == Render(HomePage)
      && HP.Greeting(HP.CurrentUserName(r.storage, json)) == page.form.username
  {
    var req := AC.RegisterBody(page.form.username, page.form.password, page.form.email);
    var reply := ToReply(AC.Register(store, req, env).1, tokenText);
    RF.ValidExactly(page.form);
    RF.RegisterSuccessOpensSession(page, reply, st, json);
    HP.GreetsStoredUser(st, reply.token, RF.TypedUser(page.form), json);
  }
}
