/** The stand-alone registration page: four fields checked in the browser,
    a POST of three of them, and on success a session holding only the
    chosen username. */
module RegisterForm {
  import opened Wrappers
  import opened Text
  import opened Email
  import opened Session
  import opened Api
  import opened Routing

  datatype Field = UsernameInput | EmailInput | PasswordInput | ConfirmInput

  datatype FormData = FormData(username: string, email: string, password: string, confirmPassword: string)

  const EmptyForm := FormData("", "", "", "")

  /** The per-field messages under the inputs; a field without an entry
      shows nothing. */
  type Errors = map<Field, string>

  /** The page's state: the fields, the per-field errors and the banner. */
  datatype PageState = PageState(form: FormData, errors: Errors, banner: Option<string>)

  /** The page as first rendered: empty fields, no messages, no banner. */
  const InitialPage := PageState(EmptyForm, map[], None)

  // ----- validation -----

  /** The username's message: missing when blank, too short under three
      UTF-16 code units (white space included). */
  function UsernameError(u: string): (e: Option<string>)
    ensures e.None? <==> !IsBlank(u) && Utf16Length(u) >= 3
    ensures IsBlank(u) ==> e == Some("Username is required")
    ensures !IsBlank(u) && Utf16Length(u) < 3 ==> e == Some("Username must be at least 3 characters")
  {
    if Trim(u) == "" then Some("Username is required")
    else if Utf16Length(u) < 3 then Some("Username must be at least 3 characters")
    else None
  }

  /** The e-mail's message: missing when blank, invalid outside the
      pattern's language. */
  function EmailError(e: string): (m: Option<string>)
    ensures m.None? <==> MatchesPattern(e)
    ensures IsBlank(e) ==> m == Some("Email is required")
    ensures !IsBlank(e) && !MatchesPattern(e) ==> m == Some("Please enter a valid email address")
  {
    EmailCharacterisation(e);
    PatternIsNotBlank(e);
    if Trim(e) == "" then Some("Email is required")
    else if !IsEmail(e) then Some("Please enter a valid email address")
    else None
  }

  /** The password's message: missing when empty (white space counts),
      too short under six UTF-16 code units. */
  function PasswordError(p: string): (e: Option<string>)
    ensures e.None? <==> Utf16Length(p) >= 6
    ensures p == "" ==> e == Some("Password is required")
    ensures p != "" && Utf16Length(p) < 6 ==> e == Some("Password must be at least 6 characters")
  {
    if p == "" then Some("Password is required")
    else if Utf16Length(p) < 6 then Some("Password must be at least 6 characters")
    else None
  }

  /** The confirmation's message: missing when empty, a mismatch when it
      differs from the password. */
  function ConfirmError(p: string, c: string): (e: Option<string>)
    ensures e.None? <==> c != "" && c == p
    ensures c == "" ==> e == Some("Please confirm your password")
    ensures c != "" && c != p ==> e == Some("Passwords do not match")
  {
    if c == "" then Some("Please confirm your password")
    else if p != c then Some("Passwords do not match")
    else None
  }

  /** The message, if any, `validateForm` gives one input. */
  function Verdict(fd: FormData, g: Field): Option<string> {
    match g
    case UsernameInput => UsernameError(fd.username)
    case EmailInput => EmailError(fd.email)
    case PasswordInput => PasswordError(fd.password)
    case ConfirmInput => ConfirmError(fd.password, fd.confirmPassword)
  }

  const AllFields: set<Field> := {UsernameInput, EmailInput, PasswordInput, ConfirmInput}

  /** `validateForm`: an input has a message exactly when its verdict
      fails, that message is the verdict's, and no message is empty. */
  function ValidateForm(fd: FormData): (errors: Errors)
    ensures forall g :: g in errors <==> Verdict(fd, g).Some?
    ensures forall g :: g in errors ==> Verdict(fd, g) == Some(errors[g]) && errors[g] != ""
  {
    assert forall g :: Verdict(fd, g).Some? ==> Verdict(fd, g).value != "" by {
      forall g ensures Verdict(fd, g).Some? ==> Verdict(fd, g).value != "" {
        VerdictNonEmpty(fd, g);
      }
    }
    assert forall g :: g in AllFields by {
      forall g ensures g in AllFields {
        EveryField(g);
      }
    }
    map g | g in AllFields && Verdict(fd, g).Some? :: Verdict(fd, g).value
  }

  /** Which inputs the form flags: a blank or short username, an e-mail
      outside the pattern's language, a short password, and a missing or
      different confirmation. */
  lemma UsernameFlagged(fd: FormData)
    ensures UsernameInput in ValidateForm(fd) <==> IsBlank(fd.username) || Utf16Length(fd.username) < 3
  {
    assert Verdict(fd, UsernameInput) == UsernameError(fd.username);
  }

  lemma EmailFlagged(fd: FormData)
    ensures EmailInput in ValidateForm(fd) <==> !MatchesPattern(fd.email)
  {
    assert Verdict(fd, EmailInput) == EmailError(fd.email);
  }

  lemma PasswordFlagged(fd: FormData)
    ensures PasswordInput in ValidateForm(fd) <==> Utf16Length(fd.password) < 6
  {
    assert Verdict(fd, PasswordInput) == PasswordError(fd.password);
  }

  lemma ConfirmFlagged(fd: FormData)
    ensures ConfirmInput in ValidateForm(fd) <==> fd.confirmPassword == "" || fd.confirmPassword != fd.password
  {
    assert Verdict(fd, ConfirmInput) == ConfirmError(fd.password, fd.confirmPassword);
  }

  lemma EveryField(g: Field)
    ensures g in AllFields
  {
    match g
    case UsernameInput =>
    case EmailInput =>
    case PasswordInput =>
    case ConfirmInput =>
  }

  lemma VerdictNonEmpty(fd: FormData, g: Field)
    ensures Verdict(fd, g).Some? ==> |Verdict(fd, g).value| > 0
  {
    match g
    case UsernameInput =>
    case EmailInput =>
    case PasswordInput =>
      assert |"Password is required"| > 0 && |"Password must be at least 6 characters"| > 0;
    case ConfirmInput =>
      assert |"Please confirm your password"| > 0 && |"Passwords do not match"| > 0;
  }

  /** A text in the e-mail language is not blank: its '@' is no space. */
  lemma PatternIsNotBlank(s: string)
    ensures MatchesPattern(s) ==> !IsBlank(s)
  {
    if MatchesPattern(s) {
      var at, dot :| 0 < at && at + 1 < dot && dot + 1 < |s| && s[at] == '@' && s[dot] == '.'
        && PlainBetween(s, 0, at) && PlainBetween(s, at + 1, dot) && PlainBetween(s, dot + 1, |s|);
      assert !IsSpace(s[at]);
    }
  }

  /** The form passes exactly when the username has three code units and
      a character that is not white space, the e-mail is in the pattern's
      language, the password has six code units and the confirmation
      repeats it. */
  lemma ValidExactly(fd: FormData)
    ensures ValidateForm(fd) == map[] <==>
      && !IsBlank(fd.username) && Utf16Length(fd.username) >= 3
      && MatchesPattern(fd.email)
      && Utf16Length(fd.password) >= 6
      && fd.confirmPassword == fd.password
  {
    CleanExactlyWhenNothingFlagged(fd);
    UsernameFlagged(fd);
    EmailFlagged(fd);
    PasswordFlagged(fd);
    ConfirmFlagged(fd);
  }

  lemma CleanExactlyWhenNothingFlagged(fd: FormData)
    ensures ValidateForm(fd) == map[] <==>
      && UsernameInput !in ValidateForm(fd) && EmailInput !in ValidateForm(fd)
      && PasswordInput !in ValidateForm(fd) && ConfirmInput !in ValidateForm(fd)
  {
    var errors := ValidateForm(fd);
    if errors != map[] {
      var f :| f in errors;
      match f
      case UsernameInput =>
      case EmailInput =>
      case PasswordInput =>
      case ConfirmInput =>
    }
  }

  /** Three spaces are a missing username, although they are long enough;
      two spaces and a letter are accepted. */
  lemma WhiteSpaceUsernames()
    ensures UsernameError("   ") == Some("Username is required")
    ensures UsernameError("  a").None?
  {
    assert IsBlank("   ");
    assert !IsBlank("  a") by { assert !IsSpace("  a"[2]); }
    assert Utf16Length("  a") == 3;
  }

  /** Lengths are counted as JavaScript counts them: three emoji outside the
      Basic Multilingual Plane are six code units, enough for a password,
      and one such emoji and a letter make a three-unit username. */
  lemma AstralLengths(emoji: char, p: string, u: string)
    requires emoji == '\U{1F600}'
    requires p == [emoji, emoji, emoji] && u == [emoji, 'a']
    ensures |p| == 3 && PasswordError(p).None?
    ensures |u| == 2 && UsernameError(u).None?
  {
    assert Utf16Length(p[2..]) == 2;
    assert Utf16Length(p[1..]) == 4;
    assert Utf16Length(u[1..]) == 1;
    assert !IsSpace(u[1]);
  }

  // ----- editing -----

  function Value(fd: FormData, field: Field): string {
    match field
    case UsernameInput => fd.username
    case EmailInput => fd.email
    case PasswordInput => fd.password
    case ConfirmInput => fd.confirmPassword
  }

  function SetValue(fd: FormData, field: Field, v: string): FormData {
    match field
    case UsernameInput => fd.(username := v)
    case EmailInput => fd.(email := v)
    case PasswordInput => fd.(password := v)
    case ConfirmInput => fd.(confirmPassword := v)
  }

  /** `handleChange`: the edited input takes the new value and its message,
      if one is shown, is cleared; every other input, message and the banner
      stay as they were. */
  function HandleChange(s: PageState, field: Field, v: string): (s': PageState)
    ensures Value(s'.form, field) == v
    ensures forall g :: g != field ==> Value(s'.form, g) == Value(s.form, g)
    ensures field in s'.errors ==> s'.errors[field] == ""
    ensures forall g :: g != field ==> (g in s'.errors <==> g in s.errors)
    ensures forall g :: g != field && g in s.errors ==> s'.errors[g] == s.errors[g]
    ensures s'.banner == s.banner
  {
    var errors := if field in s.errors && s.errors[field] != "" then s.errors - {field} else s.errors;
    PageState(SetValue(s.form, field, v), errors, s.banner)
  }

  /** Every stored message is non-empty, so each one is displayed. */
  ghost predicate Shown(s: PageState) {
    forall g :: g in s.errors ==> s.errors[g] != ""
  }

  /** The page starts, and stays, with displayable messages only; so an edit
      removes its input's message outright. */
  lemma MessagesStayShown(s: PageState, field: Field, v: string)
    requires Shown(s)
    ensures Shown(InitialPage)
    ensures Shown(HandleChange(s, field, v)) && field !in HandleChange(s, field, v).errors
    ensures Shown(HandleSubmit(s).0)
  {
    var errors := ValidateForm(s.form);
    forall g | g in errors ensures errors[g] != "" {
      EmailCharacterisation(s.form.email);
    }
  }

  /** The verdict on one input reads only that input (and, for the
      confirmation, the password), so editing one input leaves the others'
      verdicts alone. */
  lemma EditKeepsOtherVerdicts(fd: FormData, field: Field, v: string, g: Field)
    requires g != field
    requires !(field == PasswordInput && g == ConfirmInput)
    ensures var fd' := SetValue(fd, field, v);
      (g in ValidateForm(fd') <==> g in ValidateForm(fd))
      && (g in ValidateForm(fd) ==> ValidateForm(fd')[g] == ValidateForm(fd)[g])
  {
    var fd' := SetValue(fd, field, v);
    assert Verdict(fd', g) == Verdict(fd, g);
    var e, e' := ValidateForm(fd), ValidateForm(fd');
    assert g in e <==> g in e';
  }

  // ----- submitting -----

  /** `handleSubmit`: the banner is cleared and the messages replaced by the
      form's verdict; a clean form sends username, e-mail and password, and
      never the confirmation. */
  function HandleSubmit(s: PageState): (out: (PageState, Option<Request>))
    ensures out.0.form == s.form && out.0.banner.None?
    ensures out.0.errors == ValidateForm(s.form)
    ensures out.1.Some? <==> out.0.errors == map[]
    ensures out.1.Some? ==>
      out.1.value == Post(RegisterPath, RegisterPayload(s.form.email, s.form.username, s.form.password))
  {
    var errors := ValidateForm(s.form);
    (PageState(s.form, errors, None),
     if errors == map[] then Some(RegisterApi(s.form.email, s.form.username, s.form.password)) else None)
  }

  /** What the page does once the request settles: the new page state, the
      storage and the location it goes to, if any. */
  datatype Settled = Settled(page: PageState, storage: Storage, goto: Option<string>)

  /** The session object this page stores: the username typed, nothing else. */
  function TypedUser(fd: FormData): SessionUser {
    SessionUser(Some(fd.username), None, None)
  }

  /** The end of `handleSubmit`: on success the token and a `currentuser`
      naming the typed username are stored and the browser goes to `/home`;
      on failure the storage is untouched and the banner shows the server's
      message or the fallback text. */
  function OnReply(s: PageState, reply: Reply, st: Storage, json: Json): (r: Settled)
    ensures reply.Accepted? ==> r.goto == Some("/home") && r.page == s
    ensures reply.Accepted? ==> r.storage == StoreSession(st, reply.token, TypedUser(s.form), json)
    ensures reply.Refused? ==> r.goto.None? && r.storage == st
    ensures reply.Refused? ==> r.page == s.(banner := Some(ServerMessage(reply.message, RegisterFallback)))
    ensures reply.Refused? ==> r.page.banner.Some? && r.page.banner.value != ""
  {
    match reply
    case Accepted(token, _) => Settled(s, StoreSession(st, token, TypedUser(s.form), json), Some("/home"))
    case Refused(message) => Settled(s.(banner := Some(ServerMessage(message, RegisterFallback))), st, None)
  }

  /** After a successful registration the routes see a session, and the
      stored user reads back as the username typed, whatever the server
      returned. */
  lemma RegisterSuccessOpensSession(s: PageState, reply: Reply, st: Storage, json: Json)
    requires LawfulJson(json) && reply.Accepted?
    ensures var r := OnReply(s, reply, st, json);
      && HasSession(r.storage)
      && RouteElement(r.goto.value, r.storage) == Render(HomePage)
      && json.parse(r.storage[CurrentUserKey]) == Parsed(Some(s.form.username))
  {
    StoreSessionStartsSession(st, reply.token, TypedUser(s.form), json);
  }

  /** The "Sign In" link goes in-app to `/login`, a path the route table
      lacks: a visitor without a session reaches the login page by way of
      the catch-all, one redirect later, whatever the last load saw. */
  lemma SignInLinkReachesLogin(loaded: Storage, st: Storage)
    requires !HasSession(st)
    ensures InAppElement("/login", loaded, st) == Redirect("/", false)
    ensures InAppElement("/", loaded, st) == Render(LoginPage)
    ensures Follow("/login", st, 2) == Some((LoginPage, 1))
  {
    assert Follow("/", st, 1) == Some((LoginPage, 0));
  }
}
