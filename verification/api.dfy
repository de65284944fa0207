/** The client's three API calls: the two fixed sign-in endpoints and the
    user-list URL built from optional search and category parameters.
    The form-urlencoded serializer `URLSearchParams` applies to each name and
    value is left uninterpreted (`encode`). */
module Api {
  import opened Wrappers
  import opened Text
  import opened Session

  const LoginPath := "/auth/login"
  const RegisterPath := "/auth/register"
  const UserListPath := "/user/list"

  datatype Payload =
    | LoginPayload(username: string, password: string)
    | RegisterPayload(email: string, username: string, password: string)

  datatype Request = Post(path: string, payload: Payload) | Get(url: string)

  /** How an awaited sign-in call settles: a 2xx response's `token` and
      `user`, or a rejection with the server's `message`, if any. */
  datatype Reply = Accepted(token: string, user: SessionUser) | Refused(message: Option<string>)

  /** `error?.response?.data?.message || fallback`: the server's message
      when it has one, and otherwise the page's own text, so a page with a
      non-empty fallback never shows an empty error. */
  function ServerMessage(message: Option<string>, fallback: string): (m: string)
    ensures Truthy(message) ==> m == message.value
    ensures !Truthy(message) ==> m == fallback
    ensures fallback != "" ==> m != ""
  {
    if Truthy(message) then message.value else fallback
  }

  /** The text both sign-up pages show when registration is refused without
      a message. */
  const RegisterFallback := "Registration failed. Please try again."

  /** `loginApi(data)`: a POST to the login endpoint with exactly the two
      fields. */
  function LoginApi(username: string, password: string): (r: Request)
    ensures r.Post? && r.path == LoginPath
    ensures r.payload.LoginPayload?
    ensures r.payload.username == username && r.payload.password == password
  {
    Post(LoginPath, LoginPayload(username, password))
  }

  /** `registerApi(data)`: a POST to the register endpoint with exactly the
      three fields. */
  function RegisterApi(email: string, username: string, password: string): (r: Request)
    ensures r.Post? && r.path == RegisterPath
    ensures r.payload.RegisterPayload?
    ensures r.payload.email == email && r.payload.username == username && r.payload.password == password
  {
    Post(RegisterPath, RegisterPayload(email, username, password))
  }

  /** The optional argument of `getUserListApi`. */
  datatype SearchParams = SearchParams(search: Option<string>, category: Option<string>)

  /** `search` is sent when it is present and not blank. */
  predicate SendsSearch(p: Option<SearchParams>) {
    p.Some? && p.value.search.Some? && !IsBlank(p.value.search.value)
  }

  /** `category` is sent when it is present, non-empty and not `All`. */
  predicate SendsCategory(p: Option<SearchParams>) {
    p.Some? && p.value.category.Some? && p.value.category.value != "" && p.value.category.value != "All"
  }

  /** The name-value pairs appended to the `URLSearchParams`, in order: the
      trimmed search first, then the category as given. */
  function QueryPairs(p: Option<SearchParams>): (pairs: seq<(string, string)>)
    ensures |pairs| <= 2
    ensures forall v :: ("search", v) in pairs <==> SendsSearch(p) && v == Trim(p.value.search.value)
    ensures forall v :: ("category", v) in pairs <==> SendsCategory(p) && v == p.value.category.value
    ensures forall k :: 0 <= k < |pairs| ==> pairs[k].0 in {"search", "category"}
    ensures |pairs| == 2 ==> pairs[0].0 == "search" && pairs[1].0 == "category"
  {
    var search := if SendsSearch(p) then [("search", Trim(p.value.search.value))] else [];
    var category := if SendsCategory(p) then [("category", p.value.category.value)] else [];
    assert forall x :: x in search + category <==> x in search || x in category;
    search + category
  }

  /** `params.toString()`: `name=value` pairs joined by '&'. A non-empty list
      never serialises to the empty string. */
  function Serialize(pairs: seq<(string, string)>, encode: string -> string): (q: string)
    ensures pairs != [] ==> '=' in q
    decreases |pairs|
  {
    if pairs == [] then ""
    else
      var head := encode(pairs[0].0) + "=" + encode(pairs[0].1);
      assert head[|encode(pairs[0].0)|] == '=';
      if |pairs| == 1 then head else head + "&" + Serialize(pairs[1..], encode)
  }

  /** The URL `getUserListApi` requests: the bare list path when nothing is
      sent, and the path, a '?' and the serialised parameters otherwise. */
  function UserListUrl(p: Option<SearchParams>, encode: string -> string): (url: string)
    ensures url == UserListPath <==> QueryPairs(p) == []
    ensures '?' in url <==> QueryPairs(p) != []
    ensures QueryPairs(p) != [] ==> url == UserListPath + "?" + Serialize(QueryPairs(p), encode)
  {
    var query := Serialize(QueryPairs(p), encode);
    var url := UserListPath + (if query != "" then "?" + query else "");
    assert query != "" ==> url[|UserListPath|] == '?';
    url
  }

  /** `getUserListApi(searchParams)`: a GET of the list path, which carries
      a query exactly when some parameter is sent. */
  function GetUserListApi(p: Option<SearchParams>, encode: string -> string): (r: Request)
    ensures r.Get?
    ensures r.url == UserListPath <==> QueryPairs(p) == []
  {
    Get(UserListUrl(p, encode))
  }

  /** With no parameters, or only blank or `All` ones, the request is the
      bare list path. */
  lemma NoParametersBareUrl(search: Option<string>, encode: string -> string)
    requires search.None? || IsBlank(search.value)
    ensures GetUserListApi(None, encode) == Get(UserListPath)
    ensures GetUserListApi(Some(SearchParams(search, Some("All"))), encode) == Get(UserListPath)
  {
    assert QueryPairs(Some(SearchParams(search, Some("All")))) == [];
  }
}
