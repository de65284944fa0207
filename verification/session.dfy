/** The browser's localStorage as the client keeps its session in it: the
    `token` string and the JSON text of the `currentuser` object.

    `JSON.stringify` and `JSON.parse` are left uninterpreted; `LawfulJson`
    states the two facts about them the client relies on. */
module Session {
  import opened Wrappers

  type Storage = map<string, string>

  const TokenKey := "token"
  const CurrentUserKey := "currentuser"

  /** `localStorage.getItem(key)`; `null` is `None`. */
  function GetItem(st: Storage, key: string): Option<string> {
    if key in st then Some(st[key]) else None
  }

  /** JavaScript truthiness of a `getItem` result: `null` and `""` are falsy. */
  predicate Truthy(v: Option<string>) {
    v.Some? && v.value != ""
  }

  /** What every route decision reads: is `currentuser` truthy? */
  predicate HasSession(st: Storage) {
    Truthy(GetItem(st, CurrentUserKey))
  }

  /** The object serialised into `currentuser`: the login form stores the
      server's `{username, role, company}`, the register page only
      `{username}`. An absent property is `None`. */
  datatype SessionUser = SessionUser(username: Option<string>, role: Option<string>, company: Option<string>)

  /** `JSON.parse` reduced to what the home page reads from it: a throw, or
      a parsed `null` whose `.username` throws, is `Unparsable`; otherwise the
      `username` property, if any (a number or a string has none, so its
      `.username` is `undefined`). */
  datatype Parsed = Unparsable | Parsed(username: Option<string>)

  datatype Json = Json(stringify: SessionUser -> string, parse: string -> Parsed)

  /** Serialising an object never gives the empty string, and parsing the
      text gives back its `username`. */
  ghost predicate LawfulJson(json: Json) {
    forall u :: json.stringify(u) != "" && json.parse(json.stringify(u)) == Parsed(u.username)
  }

  /** The two writes both sign-in paths perform on success. */
  function StoreSession(st: Storage, token: string, user: SessionUser, json: Json): (st': Storage)
    ensures GetItem(st', TokenKey) == Some(token)
    ensures GetItem(st', CurrentUserKey) == Some(json.stringify(user))
    ensures forall k :: k != TokenKey && k != CurrentUserKey ==> GetItem(st', k) == GetItem(st, k)
  {
    st[TokenKey := token][CurrentUserKey := json.stringify(user)]
  }

  /** After a successful sign-in the route decisions see a session. */
  lemma StoreSessionStartsSession(st: Storage, token: string, user: SessionUser, json: Json)
    requires LawfulJson(json)
    ensures HasSession(StoreSession(st, token, user, json))
  {
    assert json.stringify(user) != "";
  }

  /** `localStorage.removeItem` of each key in `keys`. */
  function RemoveItems(st: Storage, keys: set<string>): (st': Storage)
    ensures forall k :: k in keys ==> GetItem(st', k) == None
    ensures forall k :: k !in keys ==> GetItem(st', k) == GetItem(st, k)
  {
    st - keys
  }
}
