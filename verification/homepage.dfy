/** The directory page: the list of users fetched once, narrowed in the
    browser by a category and a free-text search, the count line above it,
    the greeting in the header, and the header's logout button. */
module Homepage {
  import opened Wrappers
  import opened Text
  import opened Session
  import opened Routing

  /** A user as the list endpoint returns it; an absent property is `None`. */
  datatype DirUser = DirUser(id: string, username: Option<string>, role: Option<string>, company: Option<string>)

  // ----- loading the list -----

  /** How the one list request settles: the `users` property of the
      response body (absent when the body has none), or a rejection. */
  datatype Fetch = Fetched(users: Option<seq<DirUser>>) | FetchFailed

  const LoadError := "Failed to load users. Please try again."

  /** The page's list state: every user fetched, the users shown, and the
      error text shown instead of the list. */
  datatype Directory = Directory(users: seq<DirUser>, shown: seq<DirUser>, error: Option<string>)

  /** The mount effect once the request settles: a body without `users`
      loads the empty list; a rejection loads the empty list and shows the
      error text. */
  function Load(f: Fetch): (d: Directory)
    ensures d.error.Some? <==> f.FetchFailed?
    ensures f.FetchFailed? ==> d.users == [] && d.error == Some(LoadError)
    ensures f.Fetched? && f.users.Some? ==> d.users == f.users.value
    ensures f.Fetched? && f.users.None? ==> d.users == []
  {
    match f
    case Fetched(users) => Directory(users.GetOr([]), users.GetOr([]), None)
    case FetchFailed => Directory([], [], Some(LoadError))
  }

  /** The list shown right after loading is what the filter effect yields
      for the initial empty search and the `All` category. */
  lemma LoadShowsFilterEffect(f: Fetch)
    ensures Load(f).shown == Visible(Load(f).users, "", "All")
  {
    NothingSelectedShowsAll(Load(f).users, "");
  }

  /** With a blank search and `All` selected nobody is filtered out. */
  lemma NothingSelectedShowsAll(users: seq<DirUser>, search: string)
    requires IsBlank(search)
    ensures Visible(users, search, "All") == users
  {
  }

  // ----- filtering -----

  /** The category button's test: `All` keeps everyone; any other category
      keeps the users with a non-empty role equal to it, ignoring case. */
  predicate InCategory(u: DirUser, category: string) {
    category == "All" || (Truthy(u.role) && Lower(u.role.value) == Lower(category))
  }

  /** A property holding a non-empty text that contains `term` once
      lower-cased. */
  predicate Mentions(field: Option<string>, term: string) {
    Truthy(field) && Contains(Lower(field.value), term)
  }

  /** One of the three searched properties mentions `term`. */
  predicate MentionsTerm(u: DirUser, term: string) {
    Mentions(u.username, term) || Mentions(u.role, term) || Mentions(u.company, term)
  }

  /** The search box's test: a blank search keeps everyone; otherwise the
      lower-cased, trimmed search must occur in the username, the role or
      the company. */
  predicate MatchesSearch(u: DirUser, search: string) {
    IsBlank(search) || MentionsTerm(u, Trim(Lower(search)))
  }

  /** `users.filter(u => u.role && …)` for a selected category. */
  function ByCategory(users: seq<DirUser>, category: string): (r: seq<DirUser>)
    ensures |r| <= |users|
    ensures forall u :: u in r <==> u in users && InCategory(u, category)
    decreases |users|
  {
    if users == [] then []
    else (if InCategory(users[0], category) then [users[0]] else []) + ByCategory(users[1..], category)
  }

  /** `users.filter(u => … includes(searchTerm) …)` for a non-blank search. */
  function ByTerm(users: seq<DirUser>, term: string): (r: seq<DirUser>)
    ensures |r| <= |users|
    ensures forall u :: u in r <==> u in users && MentionsTerm(u, term)
    decreases |users|
  {
    if users == [] then []
    else (if MentionsTerm(users[0], term) then [users[0]] else []) + ByTerm(users[1..], term)
  }

  /** The filtering effect: the category filter first, unless `All` is
      selected, then the search filter, unless the search is blank. The
      result keeps exactly the users passing both tests. */
  function Visible(users: seq<DirUser>, search: string, category: string): (r: seq<DirUser>)
    ensures forall u :: u in r <==> u in users && InCategory(u, category) && MatchesSearch(u, search)
    ensures |r| <= |users|
  {
    var byCategory := if category != "All" then ByCategory(users, category) else users;
    if Trim(search) != "" then ByTerm(byCategory, Trim(Lower(search))) else byCategory
  }

  /** The reference filter: one pass keeping, in list order, each user that
      passes both tests. */
  function Kept(users: seq<DirUser>, search: string, category: string): seq<DirUser>
    decreases |users|
  {
    if users == [] then []
    else
      (if InCategory(users[0], category) && MatchesSearch(users[0], search) then [users[0]] else [])
      + Kept(users[1..], search, category)
  }

  /** `a` can be obtained from `b` by deleting elements. */
  predicate Subsequence(a: seq<DirUser>, b: seq<DirUser>)
    decreases |b|
  {
    a == [] || (b != [] && ((a[0] == b[0] && Subsequence(a[1..], b[1..])) || Subsequence(a, b[1..])))
  }

  /** The filter only deletes: what is shown keeps the fetched order. */
  lemma {:induction false} KeptIsSubsequence(users: seq<DirUser>, search: string, category: string)
    ensures Subsequence(Kept(users, search, category), users)
    decreases |users|
  {
    if users != [] {
      KeptIsSubsequence(users[1..], search, category);
      var k := Kept(users, search, category);
      if InCategory(users[0], category) && MatchesSearch(users[0], search) {
        assert k == [users[0]] + Kept(users[1..], search, category);
        assert k[0] == users[0] && k[1..] == Kept(users[1..], search, category);
      } else {
        assert k == Kept(users[1..], search, category);
      }
    }
  }

  lemma {:induction false} AllCategory(users: seq<DirUser>)
    ensures ByCategory(users, "All") == users
    decreases |users|
  {
    if users != [] {
      AllCategory(users[1..]);
    }
  }

  /** The reference filter is the page's pipeline, for every search. */
  lemma {:induction false} KeptIsPipeline(users: seq<DirUser>, search: string, category: string)
    ensures Kept(users, search, category) ==
      if IsBlank(search) then ByCategory(users, category)
      else ByTerm(ByCategory(users, category), Trim(Lower(search)))
    decreases |users|
  {
    if users != [] {
      KeptIsPipeline(users[1..], search, category);
      var u := users[0];
      var c := if InCategory(u, category) then [u] else [];
      ByTermAppend(c, ByCategory(users[1..], category), Trim(Lower(search)));
    }
  }

  /** What the page shows is the reference filter: each user passing both
      tests, in list order. */
  lemma VisibleIsKept(users: seq<DirUser>, search: string, category: string)
    ensures Visible(users, search, category) == Kept(users, search, category)
  {
    KeptIsPipeline(users, search, category);
    AllCategory(users);
  }

  /** Applying the search first and the category second shows the same
      list. */
  lemma FilterOrderIrrelevant(users: seq<DirUser>, search: string, category: string)
    ensures Visible(users, search, category) ==
      ByCategory(if IsBlank(search) then users else ByTerm(users, Trim(Lower(search))), category)
  {
    AllCategory(users);
    ByTermByCategory(users, Trim(Lower(search)), category);
    if !IsBlank(search) {
      AllCategory(ByTerm(users, Trim(Lower(search))));
    }
  }

  /** The two filters commute. */
  lemma {:induction false} ByTermByCategory(users: seq<DirUser>, term: string, category: string)
    ensures ByTerm(ByCategory(users, category), term) == ByCategory(ByTerm(users, term), category)
    decreases |users|
  {
    if users != [] {
      ByTermByCategory(users[1..], term, category);
      var u := users[0];
      var rest := users[1..];
      var c := if InCategory(u, category) then [u] else [];
      var t := if MentionsTerm(u, term) then [u] else [];
      ByTermAppend(c, ByCategory(rest, category), term);
      ByCategoryAppend(t, ByTerm(rest, term), category);
    }
  }

  lemma {:induction false} ByTermAppend(a: seq<DirUser>, b: seq<DirUser>, term: string)
    ensures ByTerm(a + b, term) == ByTerm(a, term) + ByTerm(b, term)
    decreases |a|
  {
    if a != [] {
      assert (a + b)[0] == a[0] && (a + b)[1..] == a[1..] + b;
      ByTermAppend(a[1..], b, term);
      if MentionsTerm(a[0], term) {
        assert ByTerm(a + b, term) == [a[0]] + ByTerm(a[1..] + b, term);
        assert ByTerm(a, term) == [a[0]] + ByTerm(a[1..], term);
      } else {
        assert ByTerm(a + b, term) == ByTerm(a[1..] + b, term);
        assert ByTerm(a, term) == ByTerm(a[1..], term);
      }
    } else {
      assert a + b == b;
    }
  }

  lemma {:induction false} ByCategoryAppend(a: seq<DirUser>, b: seq<DirUser>, category: string)
    ensures ByCategory(a + b, category) == ByCategory(a, category) + ByCategory(b, category)
    decreases |a|
  {
    if a != [] {
      assert (a + b)[0] == a[0] && (a + b)[1..] == a[1..] + b;
      ByCategoryAppend(a[1..], b, category);
      if InCategory(a[0], category) {
        assert ByCategory(a + b, category) == [a[0]] + ByCategory(a[1..] + b, category);
        assert ByCategory(a, category) == [a[0]] + ByCategory(a[1..], category);
      } else {
        assert ByCategory(a + b, category) == ByCategory(a[1..] + b, category);
        assert ByCategory(a, category) == ByCategory(a[1..], category);
      }
    } else {
      assert a + b == b;
    }
  }

  /** A category other than `All` hides every user without a role, and
      keeps a user whose role differs from it only in letter case. */
  lemma CategoryIgnoresCase(u: DirUser, category: string)
    requires category != "All"
    ensures !Truthy(u.role) ==> !InCategory(u, category)
    ensures Truthy(u.role) && Lower(u.role.value) == Lower(category) ==> InCategory(u, category)
    ensures u.role == Some("developer") ==> InCategory(u, "Developer")
  {
    if u.role == Some("developer") {
      assert Lower("Developer") == "developer";
      assert Lower("developer") == "developer";
    }
  }

  // ----- the count line -----

  /** `{n} result{n !== 1 ? 's' : ''} found`: the numeral of `n` leads, and
      the words after it are plural unless `n` is one. */
  function ResultLabel(n: nat): (line: string)
    ensures LeadingDigits(line) == NatToString(n)
    ensures line[|NatToString(n)|..] == if n == 1 then " result found" else " results found"
  {
    var rest := " result" + (if n != 1 then "s" else "") + " found";
    LeadingDigitsOf(NatToString(n), rest);
    assert (NatToString(n) + rest)[|NatToString(n)|..] == rest;
    NatToString(n) + rest
  }

  /** The longest prefix of decimal digits. */
  function LeadingDigits(s: string): (r: string)
    ensures |r| <= |s| && r == s[..|r|]
    ensures forall i :: 0 <= i < |r| ==> IsDigit(r[i])
    ensures |r| < |s| ==> !IsDigit(s[|r|])
    decreases |s|
  {
    if s != [] && IsDigit(s[0]) then [s[0]] + LeadingDigits(s[1..]) else []
  }

  lemma {:induction false} LeadingDigitsOf(d: string, rest: string)
    requires forall i :: 0 <= i < |d| ==> IsDigit(d[i])
    requires rest != [] && !IsDigit(rest[0])
    ensures LeadingDigits(d + rest) == d
    decreases |d|
  {
    if d != [] {
      assert (d + rest)[1..] == d[1..] + rest;
      LeadingDigitsOf(d[1..], rest);
    } else {
      assert d + rest == rest;
    }
  }

  /** The count line names the count: its leading numeral reads back as
      `n`, and it says "results" exactly when `n` is not one. */
  lemma ResultLabelNamesCount(n: nat)
    ensures ParseDecimal(LeadingDigits(ResultLabel(n))) == n
    ensures n == 1 <==> ResultLabel(n) == "1 result found"
  {
    var rest := " result" + (if n != 1 then "s" else "") + " found";
    assert ResultLabel(n) == NatToString(n) + rest;
    LeadingDigitsOf(NatToString(n), rest);
    ParseNatToString(n);
    if n != 1 {
      assert |ResultLabel(n)| == |NatToString(n)| + 14;
    }
  }

  /** Distinct counts give distinct count lines. */
  lemma ResultLabelInjective(n: nat, m: nat)
    requires ResultLabel(n) == ResultLabel(m)
    ensures n == m
  {
    ResultLabelNamesCount(n);
    ResultLabelNamesCount(m);
  }

  // ----- the header -----

  /** The `currentUser` state: the `username` of the parsed `currentuser`
      when that is a non-empty text, the empty text when the item is
      missing or empty, does not parse, or has no such property. */
  function CurrentUserName(st: Storage, json: Json): (name: string)
    ensures !HasSession(st) ==> name == ""
    ensures name != "" ==> HasSession(st) && json.parse(st[CurrentUserKey]) == Parsed(Some(name))
    ensures HasSession(st) && json.parse(st[CurrentUserKey]).Parsed? && Truthy(json.parse(st[CurrentUserKey]).username)
      ==> name == json.parse(st[CurrentUserKey]).username.value
  {
    var item := GetItem(st, CurrentUserKey);
    if !Truthy(item) then ""
    else match json.parse(item.value)
      case Unparsable => ""
      case Parsed(username) => if Truthy(username) then username.value else ""
  }

  /** `Welcome back, {currentUser || 'User'}`: the name shown. */
  function Greeting(name: string): (shown: string)
    ensures shown != ""
    ensures name != "" ==> shown == name
  {
    if name != "" then name else "User"
  }

  /** After a sign-in that stored `user`, the header greets its username, or
      "User" when it has none. */
  lemma GreetsStoredUser(st: Storage, token: string, user: SessionUser, json: Json)
    requires LawfulJson(json)
    ensures var name := CurrentUserName(StoreSession(st, token, user, json), json);
      Greeting(name) == if Truthy(user.username) then user.username.value else "User"
  {
    StoreSessionStartsSession(st, token, user, json);
  }

  /** The header's logout: remove `currentuser` and load `/`. The token is
      left in place. */
  function HomeLogout(st: Storage): (out: (Storage, string))
    ensures !HasSession(out.0)
    ensures GetItem(out.0, TokenKey) == GetItem(st, TokenKey)
    ensures forall k :: k != CurrentUserKey ==> GetItem(out.0, k) == GetItem(st, k)
    ensures out.1 == "/"
  {
    (RemoveItems(st, {CurrentUserKey}), "/")
  }

  /** After the header's logout the browser lands on the login page, and
      the signed-in pages send it back there, while the token stays stored. */
  lemma HomeLogoutEndsSession(st: Storage)
    ensures var (st', to) := HomeLogout(st);
      && Follow(to, st', 2) == Some((LoginPage, 0))
      && Follow("/home", st', 2) == Some((LoginPage, 1))
      && Follow("/profile", st', 2) == Some((LoginPage, 1))
      && (TokenKey in st ==> TokenKey in st')
  {
    var (st', to) := HomeLogout(st);
    assert Follow("/", st', 1) == Some((LoginPage, 0));
  }
}
