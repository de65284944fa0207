/** The Mongoose `User` schema and the collection it is stored in.

    Every path of the schema is optional and none is unique: a document holds
    exactly the paths its creator supplied, plus `_id` and `createdAt`, which
    defaults to the creation time. The collection is the sequence of saved
    documents in insertion order; `findOne` returns the first match. */
module UserModel {
  import opened Wrappers

  /** A document's `_id`, assigned when the document is constructed. */
  type ObjectId = nat

  /** Milliseconds since the epoch, as `Date.now` reports them. */
  type Timestamp = int

  /** The paths the schema declares. */
  const SchemaPaths: set<string> := {"username", "email", "password", "role", "company", "createdAt"}

  /** The object passed to `new User({...})`; an absent property is `None`. */
  datatype Candidate = Candidate(
    username: Option<string>,
    email: Option<string>,
    password: Option<string>,
    role: Option<string>,
    company: Option<string>,
    createdAt: Option<Timestamp>)

  /** A constructed (and possibly saved) user document. */
  datatype Record = Record(
    id: ObjectId,
    username: Option<string>,
    email: Option<string>,
    password: Option<string>,
    role: Option<string>,
    company: Option<string>,
    createdAt: Timestamp)

  function PathIf(name: string, present: bool): set<string> {
    if present then {name} else {}
  }

  /** The schema paths a candidate supplies. */
  function SuppliedPaths(c: Candidate): set<string> {
    PathIf("username", c.username.Some?) + PathIf("email", c.email.Some?)
    + PathIf("password", c.password.Some?) + PathIf("role", c.role.Some?)
    + PathIf("company", c.company.Some?) + PathIf("createdAt", c.createdAt.Some?)
  }

  /** The paths a document holds a value for; a document never holds a path
      outside the schema other than `_id`. */
  function DefinedPaths(r: Record): (paths: set<string>)
    ensures {"_id", "createdAt"} <= paths <= SchemaPaths + {"_id"}
  {
    {"_id", "createdAt"}
    + PathIf("username", r.username.Some?) + PathIf("email", r.email.Some?)
    + PathIf("password", r.password.Some?) + PathIf("role", r.role.Some?)
    + PathIf("company", r.company.Some?)
  }

  /** The document read back as a candidate. */
  function AsCandidate(r: Record): Candidate {
    Candidate(r.username, r.email, r.password, r.role, r.company, Some(r.createdAt))
  }

  /** `new User(c)`: `createdAt` falls back to the creation time, and no other
      path receives a default, so the document reads back as exactly what was
      supplied. */
  function NewDocument(c: Candidate, id: ObjectId, now: Timestamp): (r: Record)
    ensures r.id == id
    ensures AsCandidate(r) == c.(createdAt := Some(c.createdAt.GetOr(now)))
    ensures DefinedPaths(r) == {"_id", "createdAt"} + SuppliedPaths(c)
  {
    Record(id, c.username, c.email, c.password, c.role, c.company, c.createdAt.GetOr(now))
  }

  // ----- the collection -----

  type Collection = seq<Record>

  /** The position of the first document whose username is `u`, or `|c|`. */
  function FindIndex(c: Collection, u: string): (k: nat)
    ensures k <= |c|
    ensures k < |c| ==> c[k].username == Some(u)
    ensures forall j :: 0 <= j < k ==> c[j].username != Some(u)
    decreases |c|
  {
    if c == [] then 0
    else if c[0].username == Some(u) then 0
    else 1 + FindIndex(c[1..], u)
  }

  /** `User.findOne({ username: u })`: exact, case-sensitive comparison; the
      first document in insertion order wins. */
  function FindOne(c: Collection, u: string): (r: Option<Record>)
    ensures r.None? <==> forall j :: 0 <= j < |c| ==> c[j].username != Some(u)
    ensures r.Some? ==> r.value in c && r.value.username == Some(u)
  {
    var k := FindIndex(c, u);
    if k < |c| then Some(c[k]) else None
  }

  /** `doc.save()` of a new document: appended without any check. */
  function Save(c: Collection, r: Record): (c': Collection)
    ensures |c'| == |c| + 1 && c'[..|c|] == c && c'[|c|] == r
  {
    c + [r]
  }

  /** No two documents share a defined username. */
  ghost predicate UniqueUsernames(c: Collection) {
    forall i, j :: 0 <= i < j < |c| && c[i].username.Some? ==> c[i].username != c[j].username
  }

  /** Since the schema declares no unique index, saving a second document
      with a taken username succeeds and breaks uniqueness. */
  lemma SaveDoesNotEnforceUniqueness(c: Collection, r: Record)
    requires r.username.Some? && FindOne(c, r.username.value).Some?
    ensures !UniqueUsernames(Save(c, r))
  {
    var k := FindIndex(c, r.username.value);
    var c' := Save(c, r);
    assert c'[k].username == c'[|c|].username;
  }

  /** Adding a document whose username is absent from a unique collection
      keeps it unique. */
  lemma SaveFreshKeepsUnique(c: Collection, r: Record)
    requires UniqueUsernames(c)
    requires r.username.Some? && FindOne(c, r.username.value).None?
    ensures UniqueUsernames(Save(c, r))
  {
  }

  // ----- the username index -----

  /** The collection seen as the map from username to the document `findOne`
      returns for it. */
  function Index(c: Collection): map<string, Record>
    decreases |c|
  {
    if c == [] then map[]
    else
      var m := Index(c[..|c| - 1]);
      var r := c[|c| - 1];
      if r.username.Some? && r.username.value !in m then m[r.username.value := r] else m
  }

  lemma FindOneAppend(c: Collection, r: Record, u: string)
    ensures FindOne(c + [r], u) ==
      if FindOne(c, u).Some? then FindOne(c, u)
      else if r.username == Some(u) then Some(r)
      else None
  {
    var k := FindIndex(c, u);
    var k' := FindIndex(c + [r], u);
    if k < |c| {
      assert (c + [r])[k] == c[k];
      assert k' == k;
    } else {
      assert forall j :: 0 <= j < |c| ==> (c + [r])[j].username != Some(u);
      assert k' >= |c|;
      assert (c + [r])[|c|] == r;
    }
  }

  /** The map view and `findOne` agree on every username. */
  lemma {:induction false} IndexIsFindOne(c: Collection, u: string)
    ensures FindOne(c, u) == if u in Index(c) then Some(Index(c)[u]) else None
    decreases |c|
  {
    if c != [] {
      var p := c[..|c| - 1];
      var r := c[|c| - 1];
      assert c == p + [r];
      IndexIsFindOne(p, u);
      FindOneAppend(p, r, u);
    }
  }

  /** Saving a document with a username the index lacks adds exactly that
      one entry to the index. */
  lemma SaveFreshExtendsIndex(c: Collection, r: Record)
    requires r.username.Some? && FindOne(c, r.username.value).None?
    ensures Index(Save(c, r)) == Index(c)[r.username.value := r]
  {
    IndexIsFindOne(c, r.username.value);
    assert Save(c, r)[..|c|] == c;
  }
}
