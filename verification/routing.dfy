/** The route table of the single-page client and the `LoginGuard` wrapped
    around its two sign-in pages, as a pure decision over the path and the
    truthiness of `currentuser`. Paths are compared exactly.

    The table's elements are built once per page load, so the `/home` and
    `/profile` decisions read `currentuser` as it was at the last load;
    `LoginGuard` reads it afresh each time it renders. `RouteElement` is the
    decision right after a load, `InAppElement` the one reached by in-app
    navigation since then. */
module Routing {
  import opened Wrappers
  import opened Session

  datatype Page = LoginPage | RegisterPage | HomePage | ProfilePage

  /** What a route renders: a page, or a `<Navigate>` to another path
      (`replace` is the flag it carries). */
  datatype Element = Render(page: Page) | Redirect(to: string, replace: bool)

  /** `LoginGuard`: with a session, replace the entry by `/home`; without
      one, render the wrapped page unchanged. */
  function LoginGuard(st: Storage, child: Page): (e: Element)
    ensures e.Redirect? <==> HasSession(st)
    ensures e.Redirect? ==> e.to == "/home" && e.replace
    ensures e.Render? ==> e.page == child
  {
    if HasSession(st) then Redirect("/home", true) else Render(child)
  }

  const KnownPaths: set<string> := {"/", "/register", "/home", "/profile"}

  /** The element the route table yields for `path`: the two sign-in pages
      go through the guard, the two signed-in pages render only with a
      session, and anything else is sent to `/`. Every redirect targets `/`
      or `/home`. */
  function RouteElement(path: string, st: Storage): (e: Element)
    ensures path !in KnownPaths ==> e == Redirect("/", false)
    ensures path == "/" ==> e == LoginGuard(st, LoginPage)
    ensures path == "/register" ==> e == LoginGuard(st, RegisterPage)
    ensures path == "/home" ==> (e == Render(HomePage) <==> HasSession(st))
    ensures path == "/profile" ==> (e == Render(ProfilePage) <==> HasSession(st))
    ensures path in {"/home", "/profile"} && !HasSession(st) ==> e == Redirect("/", false)
    ensures e.Redirect? ==> e.to in {"/", "/home"}
  {
    if path == "/" then LoginGuard(st, LoginPage)
    else if path == "/register" then LoginGuard(st, RegisterPage)
    else if path == "/home" then (if HasSession(st) then Render(HomePage) else Redirect("/", false))
    else if path == "/profile" then (if HasSession(st) then Render(ProfilePage) else Redirect("/", false))
    else Redirect("/", false)
  }

  /** The element in-app navigation (a `navigate` call or a `<Navigate>`)
      reaches for `path` when `currentuser` was `loaded` at the last page
      load and is `current` now: the guarded pages follow `current`, the
      signed-in pages still follow `loaded`. */
  function InAppElement(path: string, loaded: Storage, current: Storage): (e: Element)
    ensures path == "/" ==> e == LoginGuard(current, LoginPage)
    ensures path == "/register" ==> e == LoginGuard(current, RegisterPage)
    ensures path == "/home" ==> (e == Render(HomePage) <==> HasSession(loaded))
    ensures path == "/profile" ==> (e == Render(ProfilePage) <==> HasSession(loaded))
    ensures path !in KnownPaths ==> e == Redirect("/", false)
  {
    if path == "/" || path == "/register" then RouteElement(path, current) else RouteElement(path, loaded)
  }

  /** Until the storage changes, in-app navigation decides as a fresh load
      would. */
  lemma InAppAgreesUntilStorageChanges(path: string, st: Storage)
    ensures InAppElement(path, st, st) == RouteElement(path, st)
  {
  }

  /** Once the session ends without a reload, the guarded login page
      renders, yet the signed-in pages still render too: they were decided
      at the last load. */
  lemma StaleSignedInPages(loaded: Storage, current: Storage)
    requires HasSession(loaded) && !HasSession(current)
    ensures InAppElement("/", loaded, current) == Render(LoginPage)
    ensures InAppElement("/home", loaded, current) == Render(HomePage)
    ensures InAppElement("/profile", loaded, current) == Render(ProfilePage)
    ensures RouteElement("/home", current) == Redirect("/", false)
  {
  }

  /** The page a navigation to `path` should end on: the signed-in pages when
      a session is present (the profile only when asked for), the sign-in
      pages otherwise (the register page only when asked for). */
  function Landing(path: string, st: Storage): Page {
    if HasSession(st) then (if path == "/profile" then ProfilePage else HomePage)
    else (if path == "/register" then RegisterPage else LoginPage)
  }

  /** Follow redirects from `path` right after a page load, at most
      `budget` of them; the result is the rendered page and the number of
      redirects taken. A redirect changes no storage, so the load-time and
      the current storage stay equal along the way. */
  function Follow(path: string, st: Storage, budget: nat): Option<(Page, nat)>
    decreases budget
  {
    match RouteElement(path, st)
    case Render(p) => Some((p, 0))
    case Redirect(to, _) =>
      if budget == 0 then None
      else match Follow(to, st, budget - 1)
        case None => None
        case Some(landed) => Some((landed.0, landed.1 + 1))
  }

  /** Every navigation renders a page after at most two redirects, and that
      page is the one `Landing` names. */
  lemma EveryNavigationSettles(path: string, st: Storage)
    ensures Follow(path, st, 2).Some?
    ensures Follow(path, st, 2).value.0 == Landing(path, st)
    ensures Follow(path, st, 2).value.1 <= 2
  {
    assert Follow("/home", st, 0) == if HasSession(st) then Some((HomePage, 0)) else None;
    assert Follow("/", st, 0) == if HasSession(st) then None else Some((LoginPage, 0));
    assert Follow("/", st, 1).Some?;
  }

  /** Two redirects can be necessary: an unknown path with a session goes
      through `/` to `/home`. */
  lemma UnknownPathTakesTwoHops(st: Storage)
    requires HasSession(st)
    ensures Follow("/nowhere", st, 1) == None
    ensures Follow("/nowhere", st, 2) == Some((HomePage, 2))
  {
    assert Follow("/home", st, 0) == Some((HomePage, 0));
    assert Follow("/", st, 0) == None;
  }

  /** A larger redirect budget changes nothing: the redirects never cycle. */
  lemma {:induction false} NoRedirectCycle(path: string, st: Storage, budget: nat)
    requires budget >= 2
    ensures Follow(path, st, budget) == Follow(path, st, 2)
  {
    var m := budget - 2;
    if HasSession(st) {
      assert Follow("/home", st, m) == Follow("/home", st, 0);
    } else {
      assert Follow("/", st, m) == Follow("/", st, 0);
    }
    assert Follow("/", st, m + 1) == Follow("/", st, 1);
    assert Follow("/home", st, m + 1) == Follow("/home", st, 1);
  }

  /** The decision reads nothing but the truthiness of `currentuser`. */
  lemma RouteReadsOnlySession(path: string, st1: Storage, st2: Storage)
    requires HasSession(st1) == HasSession(st2)
    ensures RouteElement(path, st1) == RouteElement(path, st2)
  {
  }

  /** In particular the token is never consulted: adding, changing or
      removing it leaves every route decision as it was. */
  lemma TokenNeverConsulted(path: string, st: Storage, token: Option<string>)
    ensures var st' := if token.Some? then st[TokenKey := token.value] else st - {TokenKey};
      RouteElement(path, st') == RouteElement(path, st)
  {
    var st' := if token.Some? then st[TokenKey := token.value] else st - {TokenKey};
    assert GetItem(st', CurrentUserKey) == GetItem(st, CurrentUserKey);
  }

  /** A stored empty `currentuser` is no session: the guarded pages render and
      the signed-in pages send the visitor to `/`. */
  lemma EmptyCurrentUserIsNoSession(st: Storage)
    requires GetItem(st, CurrentUserKey) == Some("")
    ensures RouteElement("/", st) == Render(LoginPage)
    ensures RouteElement("/home", st) == Redirect("/", false)
    ensures RouteElement("/profile", st) == Redirect("/", false)
  {
  }
}
