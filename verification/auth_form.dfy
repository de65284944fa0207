/** The combined sign-in form: a login mode and a register mode, each with
    react-hook-form field rules, and the mapping of a server's error message
    onto a form field by case-insensitive patterns, the first match winning. */
module AuthForm {
  import opened Wrappers
  import opened Text
  import opened Email
  import opened Session
  import opened Api

  datatype FormField = UsernameField | PasswordField | EmailField | RootField

  /** The error `setError` attaches to one field. */
  datatype FieldError = FieldError(field: FormField, message: string)

  type Errors = map<FormField, string>

  datatype LoginFields = LoginFields(username: string, password: string)
  datatype RegisterFields = RegisterFields(username: string, password: string, email: string)

  /** The `defaultValues` both forms reset to. */
  const EmptyLogin := LoginFields("", "")
  const EmptyRegister := RegisterFields("", "", "")

  // ----- field rules -----

  /** A `required` rule followed by a `minLength` rule: the empty value is
      missing, a shorter one is too short. Length is the string's `length`,
      in UTF-16 code units; white space counts as content. */
  function LengthRule(value: string, min: nat, requiredMessage: string, minMessage: string): (e: Option<string>)
    ensures e.None? <==> value != "" && Utf16Length(value) >= min
    ensures value == "" ==> e == Some(requiredMessage)
    ensures value != "" && Utf16Length(value) < min ==> e == Some(minMessage)
  {
    if value == "" then Some(requiredMessage)
    else if Utf16Length(value) < min then Some(minMessage)
    else None
  }

  /** The username rule of both modes: required, at least 3 code units. */
  function UsernameRule(value: string): (e: Option<string>)
    ensures e.None? <==> value != "" && Utf16Length(value) >= 3
    ensures value == "" ==> e == Some("Username is required")
    ensures value != "" && Utf16Length(value) < 3 ==> e == Some("Username must be at least 3 characters")
  {
    LengthRule(value, 3, "Username is required", "Username must be at least 3 characters")
  }

  /** The password rule of both modes: required, at least 6 code units. */
  function PasswordRule(value: string): (e: Option<string>)
    ensures e.None? <==> value != "" && Utf16Length(value) >= 6
    ensures value == "" ==> e == Some("Password is required")
    ensures value != "" && Utf16Length(value) < 6 ==> e == Some("Password must be at least 6 characters")
  {
    LengthRule(value, 6, "Password is required", "Password must be at least 6 characters")
  }

  /** `required` followed by the e-mail `pattern` rule. */
  function EmailRule(value: string): (e: Option<string>)
    ensures e.None? <==> MatchesPattern(value)
    ensures value == "" ==> e == Some("Email is required")
    ensures value != "" && !MatchesPattern(value) ==> e == Some("Please enter a valid email address")
  {
    EmailCharacterisation(value);
    if value == "" then Some("Email is required")
    else if !IsEmail(value) then Some("Please enter a valid email address")
    else None
  }

  function WithError(errors: Errors, field: FormField, e: Option<string>): Errors {
    if e.Some? then errors[field := e.value] else errors
  }

  /** The errors the login mode shows before anything is sent: each field
      carries its own rule's message, and only when that rule fails. */
  function ValidateLogin(f: LoginFields): (errors: Errors)
    ensures errors.Keys <= {UsernameField, PasswordField}
    ensures UsernameField in errors <==> UsernameRule(f.username).Some?
    ensures UsernameField in errors ==> errors[UsernameField] == UsernameRule(f.username).value
    ensures PasswordField in errors <==> PasswordRule(f.password).Some?
    ensures PasswordField in errors ==> errors[PasswordField] == PasswordRule(f.password).value
    ensures errors == map[] <==> Utf16Length(f.username) >= 3 && Utf16Length(f.password) >= 6
  {
    var errors := WithError(map[], UsernameField, UsernameRule(f.username));
    var errors := WithError(errors, PasswordField, PasswordRule(f.password));
    assert UsernameRule(f.username).Some? ==> UsernameField in errors;
    assert PasswordRule(f.password).Some? ==> PasswordField in errors;
    errors
  }

  /** The errors the register mode shows before anything is sent: each
      field carries its own rule's message, and only when that rule fails. */
  function ValidateRegisterMode(f: RegisterFields): (errors: Errors)
    ensures errors.Keys <= {UsernameField, PasswordField, EmailField}
    ensures UsernameField in errors <==> UsernameRule(f.username).Some?
    ensures UsernameField in errors ==> errors[UsernameField] == UsernameRule(f.username).value
    ensures EmailField in errors <==> EmailRule(f.email).Some?
    ensures EmailField in errors ==> errors[EmailField] == EmailRule(f.email).value
    ensures PasswordField in errors <==> PasswordRule(f.password).Some?
    ensures PasswordField in errors ==> errors[PasswordField] == PasswordRule(f.password).value
    ensures errors == map[] <==>
      Utf16Length(f.username) >= 3 && Utf16Length(f.password) >= 6 && MatchesPattern(f.email)
  {
    var errors := WithError(map[], UsernameField, UsernameRule(f.username));
    var errors := WithError(errors, EmailField, EmailRule(f.email));
    var errors := WithError(errors, PasswordField, PasswordRule(f.password));
    assert UsernameRule(f.username).Some? ==> UsernameField in errors;
    assert EmailRule(f.email).Some? ==> EmailField in errors;
    assert PasswordRule(f.password).Some? ==> PasswordField in errors;
    errors
  }

  // ----- server message classification -----

  const LoginFallback := "Login failed. Please try again."

  /** The login mode's mapping: `/user not found/i`, then
      `/invalid credentials/i`, else the message itself at the root. */
  function ClassifyLoginError(msg: string): (e: FieldError)
    ensures e.field == UsernameField <==> Occurs(Lower(msg), "user not found")
    ensures e.field == PasswordField <==>
      !Occurs(Lower(msg), "user not found") && Occurs(Lower(msg), "invalid credentials")
    ensures e.field != EmailField
    ensures e.field == UsernameField ==> e.message == "User not found"
    ensures e.field == PasswordField ==> e.message == "Invalid credentials"
    ensures e.field == RootField ==> e.message == msg
  {
    var lower := Lower(msg);
    ContainsMeansOccurs(lower, "user not found");
    ContainsMeansOccurs(lower, "invalid credentials");
    if Contains(lower, "user not found") then FieldError(UsernameField, "User not found")
    else if Contains(lower, "invalid credentials") then FieldError(PasswordField, "Invalid credentials")
    else FieldError(RootField, msg)
  }

  /** The register mode's mapping, in priority order: `/email.*exists/i`,
      `/username.*exists/i`, `/password.*6/i`, else the message at the root. */
  function ClassifyRegisterError(msg: string): (e: FieldError)
    ensures e.field == EmailField <==> ThenOnLine(Lower(msg), "email", "exists")
    ensures e.field == UsernameField <==>
      !ThenOnLine(Lower(msg), "email", "exists") && ThenOnLine(Lower(msg), "username", "exists")
    ensures e.field == PasswordField <==>
      && !ThenOnLine(Lower(msg), "email", "exists") && !ThenOnLine(Lower(msg), "username", "exists")
      && ThenOnLine(Lower(msg), "password", "6")
    ensures e.field == EmailField ==> e.message == "Email already exists"
    ensures e.field == UsernameField ==> e.message == "Username already exists"
    ensures e.field == PasswordField ==> e.message == "Password must be at least 6 characters"
    ensures e.field == RootField ==> e.message == msg
  {
    var lower := Lower(msg);
    ThenMeansThenOnLine(lower, "email", "exists");
    ThenMeansThenOnLine(lower, "username", "exists");
    ThenMeansThenOnLine(lower, "password", "6");
    if Then(lower, "email", "exists") then FieldError(EmailField, "Email already exists")
    else if Then(lower, "username", "exists") then FieldError(UsernameField, "Username already exists")
    else if Then(lower, "password", "6") then FieldError(PasswordField, "Password must be at least 6 characters")
    else FieldError(RootField, msg)
  }

  /** The login fallback text matches neither pattern, so it is shown at the
      root. */
  lemma LoginFallbackAtRoot()
    ensures ClassifyLoginError(LoginFallback) == FieldError(RootField, LoginFallback)
  {
    FallbackLacks(Lower(LoginFallback), "login failed. please try again.");
  }

  // The lower-cased text arrives as `lower`, and the literal it must equal
  // as `expected`: with both bound to parameters the solver compares the
  // literal once, instead of re-expanding it at every use.
  lemma FallbackLacks(lower: string, expected: string)
    requires lower == expected == "login failed. please try again."
    ensures !Contains(lower, "user not found") && !Contains(lower, "invalid credentials")
  {
    assert 'u' !in lower && 'v' !in lower;
    ContainsNeedsChar(lower, "user not found", 0);
    ContainsNeedsChar(lower, "invalid credentials", 2);
  }

  /** The register fallback text matches none of the three patterns, so it
      is shown at the root. */
  lemma RegisterFallbackAtRoot()
    ensures ClassifyRegisterError(RegisterFallback) == FieldError(RootField, RegisterFallback)
  {
    RegisterFallbackLacks(Lower(RegisterFallback), "registration failed. please try again.");
  }

  lemma RegisterFallbackLacks(lower: string, expected: string)
    requires lower == expected == "registration failed. please try again."
    ensures !Then(lower, "email", "exists") && !Then(lower, "username", "exists") && !Then(lower, "password", "6")
  {
    LacksLetter(lower, 'm');
    ThenNeedsChar(lower, "email", "exists", 1);
    LacksLetter(lower, 'u');
    ThenNeedsChar(lower, "username", "exists", 0);
    LacksLetter(lower, 'w');
    ThenNeedsChar(lower, "password", "6", 4);
  }

  /** The lower-cased registration fallback has no 'm', 'u' or 'w', one
      letter at a time. */
  lemma LacksLetter(lower: string, c: char)
    requires lower == "registration failed. please try again."
    requires c in {'m', 'u', 'w'}
    ensures c !in lower
  {
  }

  // ----- submitting -----

  /** What `handleSubmit` does with the fields: show the rule errors, or send
      the request. */
  datatype Submission = Blocked(errors: Errors) | Sent(request: Request)

  /** Submitting the login mode: blocked while a rule fails, otherwise a POST
      to the login endpoint carrying exactly the two fields. */
  function SubmitLogin(f: LoginFields): (s: Submission)
    ensures s.Blocked? <==> !(Utf16Length(f.username) >= 3 && Utf16Length(f.password) >= 6)
    ensures s.Blocked? ==> s.errors != map[] && s.errors == ValidateLogin(f)
    ensures s.Sent? ==> s.request == Post(LoginPath, LoginPayload(f.username, f.password))
  {
    var errors := ValidateLogin(f);
    if errors != map[] then Blocked(errors) else Sent(LoginApi(f.username, f.password))
  }

  /** Submitting the register mode: blocked while a rule fails, otherwise a
      POST to the register endpoint carrying exactly the three fields. */
  function SubmitRegister(f: RegisterFields): (s: Submission)
    ensures s.Blocked? <==> !(Utf16Length(f.username) >= 3 && Utf16Length(f.password) >= 6 && MatchesPattern(f.email))
    ensures s.Blocked? ==> s.errors == ValidateRegisterMode(f)
    ensures s.Sent? ==> s.request == Post(RegisterPath, RegisterPayload(f.email, f.username, f.password))
  {
    var errors := ValidateRegisterMode(f);
    if errors != map[] then Blocked(errors) else Sent(RegisterApi(f.email, f.username, f.password))
  }

  datatype LoginOutcome = SignedIn(storage: Storage, goto: string) | LoginRejected(error: FieldError)

  /** `onLoginSubmit` once the request settles: on success store `token` and
      `currentuser` and go to `/home`; on failure show the classified error
      (the fallback text when the server sent no message). */
  function OnLoginReply(reply: Reply, st: Storage, json: Json): (o: LoginOutcome)
    ensures reply.Accepted? ==> o.SignedIn? && o.goto == "/home"
    ensures reply.Accepted? ==> o.storage == StoreSession(st, reply.token, reply.user, json)
    ensures reply.Refused? ==> o.LoginRejected?
    ensures reply.Refused? && !Truthy(reply.message) ==> o.error == FieldError(RootField, LoginFallback)
    ensures reply.Refused? && Truthy(reply.message) ==> o.error == ClassifyLoginError(reply.message.value)
  {
    match reply
    case Accepted(token, user) => SignedIn(StoreSession(st, token, user, json), "/home")
    case Refused(message) =>
      LoginFallbackAtRoot();
      LoginRejected(ClassifyLoginError(ServerMessage(message, LoginFallback)))
  }

  // ----- the mode switch -----

  datatype FormState = FormState(isLogin: bool, login: LoginFields, register: RegisterFields)

  /** The page as first rendered: login mode, both forms at their defaults. */
  const InitialForm := FormState(true, EmptyLogin, EmptyRegister)

  /** The "Register" link: switch to the register mode and reset the login
      fields; the register fields are kept. */
  function ShowRegister(s: FormState): (r: FormState)
    ensures !r.isLogin && r.login == EmptyLogin && r.register == s.register
  {
    s.(isLogin := false, login := EmptyLogin)
  }

  /** The "Login" link: switch to the login mode and reset the register
      fields; the login fields are kept. */
  function ShowLogin(s: FormState): (r: FormState)
    ensures r.isLogin && r.register == EmptyRegister && r.login == s.login
  {
    s.(isLogin := true, register := EmptyRegister)
  }

  /** Following one link and then the other, from any state, lands on the
      page as first rendered: nothing typed survives the round trip. */
  lemma ModeRoundTripResets(s: FormState)
    ensures ShowLogin(ShowRegister(s)) == InitialForm
    ensures ShowRegister(ShowLogin(s)) == InitialForm.(isLogin := false)
  {
  }

  /** `onRegisterSubmit` once the request settles. Success stores nothing
      (the function is given no storage) and leaves the form exactly where
      the "Login" link would; failure shows the classified error. */
  function OnRegisterReply(s: FormState, reply: Reply): (out: (FormState, Option<FieldError>))
    ensures reply.Accepted? ==> out.1.None? && out.0.isLogin
    ensures reply.Accepted? ==> out.0.register == EmptyRegister && out.0.login == s.login
    ensures reply.Refused? ==> out.0 == s && out.1.Some?
    ensures reply.Refused? && !Truthy(reply.message) ==> out.1 == Some(FieldError(RootField, RegisterFallback))
    ensures reply.Refused? && Truthy(reply.message) ==> out.1 == Some(ClassifyRegisterError(reply.message.value))
  {
    match reply
    case Accepted(_, _) => (ShowLogin(s), None)
    case Refused(message) =>
      RegisterFallbackAtRoot();
      (s, Some(ClassifyRegisterError(ServerMessage(message, RegisterFallback))))
  }

  /** A successful login leaves a session behind, every other key as it was,
      and a navigation that renders the home page. */
  lemma LoginSuccessOpensSession(reply: Reply, st: Storage, json: Json)
    requires LawfulJson(json) && reply.Accepted?
    ensures var o := OnLoginReply(reply, st, json);
      && HasSession(o.storage)
      && GetItem(o.storage, TokenKey) == Some(reply.token)
      && (forall k :: k != TokenKey && k != CurrentUserKey ==> GetItem(o.storage, k) == GetItem(st, k))
  {
    StoreSessionStartsSession(st, reply.token, reply.user, json);
  }
}
