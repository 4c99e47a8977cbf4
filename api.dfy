/** The REST resources of app/blueprints/api.py over the user/post store.

    Each handler is given twice: as a function from the tables before the
    request to the tables after it and the reply (`UserListPost`,
    `UserDetailPut`, ...), about which the lemmas below are proved, and as a
    method of `Store` that assigns the record fields one by one the way the
    handler does and is proved to agree with that function.

    The caller's identity is what `get_jwt_identity()` yields after
    `@jwt_required()` accepted the token; `None` stands for a request whose
    token is missing, malformed or expired. */
module Api {
  import opened Values
  import opened UserModel
  import opened Session
  import Text

  /** `@jwt_required()` turned the request away. */
  const Unauthenticated := FrameworkReply(401)
  /** `get_or_404` found no row. */
  const NotFound := FrameworkReply(404)
  /** The commit raised (a constraint violation) or the hasher refused the password. */
  const ServerError := FrameworkReply(500)
  /** The handlers' own refusal. */
  const Forbidden := ErrorReply(403, "Unauthorized")

  const MissingRequired := "Missing required fields"
  const UsernameExists := "Username already exists"
  const EmailExists := "Email already exists"
  const TitleContentRequired := "Title and content required"

  // ---------------------------------------------------------------------
  // Reading

  /** The ids below `bound` that are keys of `m`, ascending: the order in
      which a query without ORDER BY returns the rows. */
  function IdsBelow<T>(m: map<nat, T>, bound: nat): (ids: seq<nat>)
    ensures forall id :: id in ids <==> id in m && id < bound
    ensures forall i, j :: 0 <= i < j < |ids| ==> ids[i] < ids[j]
  {
    if bound == 0 then []
    else
      var init := IdsBelow(m, bound - 1);
      assert forall i :: 0 <= i < |init| ==> init[i] in init;
      init + (if bound - 1 in m then [bound - 1] else [])
  }

  /** The ids of the posts whose `published` column is True, ascending. */
  function PublishedIds(posts: map<nat, Post>, bound: nat): (ids: seq<nat>)
    ensures forall id :: id in ids <==> id in posts && id < bound && posts[id].published == Bool(true)
    ensures forall i, j :: 0 <= i < j < |ids| ==> ids[i] < ids[j]
  {
    if bound == 0 then []
    else
      var init := PublishedIds(posts, bound - 1);
      assert forall i :: 0 <= i < |init| ==> init[i] in init;
      init + (if bound - 1 in posts && posts[bound - 1].published == Bool(true) then [bound - 1] else [])
  }

  /** GET /users/: every user's dictionary, ascending by id; none carries
      the password hash. */
  function UserListGet(t: Tables): (r: Reply)
    ensures r.status == 200 && r.body.List?
    ensures forall v :: v in r.body.items ==>
      v.Dict? && v.entries.Keys == UserColumnNames - {"password_hash"}
  {
    var ids := IdsBelow(t.users, t.nextUserId);
    Reply(200, List(seq(|ids|, i requires 0 <= i < |ids| => Dict(UserToDict(t.users[ids[i]])))))
  }

  /** GET /users/<id>: 200 with the user's columns but the hash when the id
      is stored, 404 otherwise. */
  function UserDetailGet(t: Tables, userId: nat): (r: Reply)
    ensures r.status == 200 <==> userId in t.users
    ensures userId !in t.users ==> r == NotFound
    ensures userId in t.users ==>
      r.body.Dict? && r.body.entries.Keys == UserColumnNames - {"password_hash"}
      && forall k :: k in r.body.entries ==> UserAttr(t.users[userId], k) == Some(r.body.entries[k])
  {
    if userId in t.users then
      UserToDictHidesHash(t.users[userId]);
      Reply(200, Dict(UserToDict(t.users[userId])))
    else NotFound
  }

  /** The dictionaries of the posts `ids` names, in that order. */
  function PostDicts(posts: map<nat, Post>, ids: seq<nat>): (items: seq<Value>)
    requires forall i :: 0 <= i < |ids| ==> ids[i] in posts
    ensures |items| == |ids|
    ensures forall i :: 0 <= i < |ids| ==> items[i] == Dict(PostToDict(posts[ids[i]]))
  {
    seq(|ids|, i requires 0 <= i < |ids| => Dict(PostToDict(posts[ids[i]])))
  }

  /** Dictionaries of published posts all say `published: True`. */
  lemma PublishedDicts(posts: map<nat, Post>, ids: seq<nat>)
    requires forall i :: 0 <= i < |ids| ==> ids[i] in posts && posts[ids[i]].published == Bool(true)
    ensures forall v :: v in PostDicts(posts, ids) ==>
      v.Dict? && v.entries.Keys == PostColumnNames && v.entries["published"] == Bool(true)
  {
    var items := PostDicts(posts, ids);
    forall v | v in items
      ensures v.Dict? && v.entries.Keys == PostColumnNames && v.entries["published"] == Bool(true)
    {
      var i :| 0 <= i < |items| && items[i] == v;
      PublishedEntry(posts[ids[i]]);
    }
  }

  lemma PublishedEntry(p: Post)
    ensures PostToDict(p)["published"] == p.published
  {
    assert "published" in PostColumnNames;
    assert PostAttr(p, "published") == Some(PostToDict(p)["published"]);
  }

  /** GET /posts/: the published posts' dictionaries, ascending by id. */
  function PostListGet(t: Tables): (r: Reply)
    ensures r.status == 200 && r.body.List?
    ensures forall v :: v in r.body.items ==>
      v.Dict? && v.entries.Keys == PostColumnNames && v.entries["published"] == Bool(true)
  {
    var ids := PublishedIds(t.posts, t.nextPostId);
    assert forall i :: 0 <= i < |ids| ==> ids[i] in ids;
    PublishedDicts(t.posts, ids);
    Reply(200, List(PostDicts(t.posts, ids)))
  }

  /** GET /posts/<id>: 200 with the post's columns when the id is stored,
      404 otherwise. */
  function PostDetailGet(t: Tables, postId: nat): (r: Reply)
    ensures r.status == 200 <==> postId in t.posts
    ensures postId !in t.posts ==> r == NotFound
    ensures postId in t.posts ==>
      r.body.Dict? && r.body.entries.Keys == PostColumnNames
      && forall k :: k in r.body.entries ==> PostAttr(t.posts[postId], k) == Some(r.body.entries[k])
  {
    if postId in t.posts then Reply(200, Dict(PostToDict(t.posts[postId]))) else NotFound
  }

  /** The post list holds exactly the published posts, each once, in id order. */
  lemma PostListIsPublished(t: Tables)
    requires Valid(t)
    ensures var items := PostListGet(t).body.items;
      |items| == |PublishedIds(t.posts, t.nextPostId)|
      && forall i :: 0 <= i < |items| ==>
           items[i] == Dict(PostToDict(t.posts[PublishedIds(t.posts, t.nextPostId)[i]]))
    ensures forall id :: id in t.posts ==>
      (id in PublishedIds(t.posts, t.nextPostId) <==> t.posts[id].published == Bool(true))
  {
  }

  /** The user list holds every stored user's dictionary, each once, in id
      order, none with its password hash. */
  lemma UserListHidesHashes(t: Tables)
    requires Valid(t)
    ensures var ids := IdsBelow(t.users, t.nextUserId);
      (forall id :: id in t.users <==> id in ids)
      && (forall i, j :: 0 <= i < j < |ids| ==> ids[i] != ids[j])
      && var items := UserListGet(t).body.items;
         |items| == |ids|
         && forall i :: 0 <= i < |items| ==>
              items[i] == Dict(UserToDict(t.users[ids[i]])) && "password_hash" !in items[i].entries
  {
  }

  // ---------------------------------------------------------------------
  // Users

  /** What `filter_by(column=value)` compares a `String` column with. */
  datatype Lookup =
    | Compare(text: string)  // SQLite compares the column with this text
    | NoMatch             // `IS NULL`, which no NOT NULL column satisfies
    | BindError           // the driver cannot bind the value and raises

  /** The signed decimal text SQLite gives an integer. */
  function IntText(i: int): (r: string)
    ensures r != [] && (r[0] == '-' <==> i < 0)
  {
    if i < 0 then "-" + Text.NatToDecimal(-i) else Text.NatToDecimal(i)
  }

  /** Different integers have different texts. */
  lemma IntTextInjective(i: int, j: int)
    requires IntText(i) == IntText(j)
    ensures i == j
  {
    if i < 0 {
      assert IntText(i)[1..] == IntText(j)[1..];
      Text.NatToDecimalInjective(-i, -j);
    } else {
      Text.NatToDecimalInjective(i, j);
    }
  }

  /** A JSON value bound as a query parameter against a `String` column. The
      column's TEXT affinity turns a bound integer into its decimal text,
      and the driver binds a boolean as the integer 1 or 0. An integer
      outside 64 bits, a list or an object cannot be bound. A `Time` is
      never part of a decoded body. */
  function BindAsText(v: Value): (r: Lookup)
    ensures r.BindError? <==> v.List? || v.Dict? || (v.Int? && !(-0x8000_0000_0000_0000 <= v.i < 0x8000_0000_0000_0000))
    ensures v.Str? ==> r == Compare(v.s)
  {
    match v
    case Null => NoMatch
    case Bool(b) => Compare(if b then "1" else "0")
    case Int(i) => if -0x8000_0000_0000_0000 <= i < 0x8000_0000_0000_0000 then Compare(IntText(i)) else BindError
    case Str(s) => Compare(s)
    case Time(_) => NoMatch
    case List(_) => BindError
    case Dict(_) => BindError
  }

  /** `User.query.filter_by(username=name).first()` finds a row. */
  predicate UsernameTaken(users: map<nat, User>, name: Value) {
    BindAsText(name).Compare? && exists id :: id in users && users[id].username == Str(BindAsText(name).text)
  }

  /** `User.query.filter_by(email=email).first()` finds a row. */
  predicate EmailTaken(users: map<nat, User>, email: Value) {
    BindAsText(email).Compare? && exists id :: id in users && users[id].email == Str(BindAsText(email).text)
  }

  /** An integer username finds the user whose username is its decimal
      text, and the lookup never matches a different integer. */
  lemma IntegerLookupMatchesText(users: map<nat, User>, i: int, j: int)
    requires -0x8000_0000_0000_0000 <= i < 0x8000_0000_0000_0000
    ensures UsernameTaken(users, Int(i)) <==> UsernameTaken(users, Str(IntText(i)))
    ensures UsernameTaken(users, Bool(true)) <==> UsernameTaken(users, Str("1"))
    ensures IntText(i) == IntText(j) ==> i == j
  {
    if IntText(i) == IntText(j) {
      IntTextInjective(i, j);
    }
  }

  /** The three fields `UserList.post` insists on are present and truthy. */
  predicate HasRequiredUserFields(body: Body) {
    Truthy(Get(body, "username")) && Truthy(Get(body, "email")) && Truthy(Get(body, "password"))
  }

  /** The user `UserList.post` builds from the body, before it is saved. */
  function UserFromBody(body: Body, password: string, salt: Salt): User
    requires "username" in body && "email" in body && password != ""
  {
    SetPassword(
      NewUser(body["username"], body["email"],
              Get(body, "first_name", Str("")), Get(body, "last_name", Str(""))),
      password, salt)
  }

  /** POST /users/ (no token needed). */
  function UserListPost(t: Tables, body: Body, salt: Salt, now: nat): (r: (Tables, Reply))
    requires Valid(t)
    ensures Valid(r.0)
    ensures r.1.status != 201 ==> r.0 == t
  {
    if !HasRequiredUserFields(body) then (t, ErrorReply(400, MissingRequired))
    else if BindAsText(body["username"]).BindError? then (t, ServerError)
    else if UsernameTaken(t.users, body["username"]) then (t, ErrorReply(400, UsernameExists))
    else if BindAsText(body["email"]).BindError? then (t, ServerError)
    else if EmailTaken(t.users, body["email"]) then (t, ErrorReply(400, EmailExists))
    else if !body["password"].Str? then (t, ServerError)
    else
      match InsertUser(t, UserFromBody(body, body["password"].s, salt), now)
      case IntegrityError => (t, ServerError)
      case Committed(t', row) => (t', Reply(201, Dict(UserToDict(row))))
  }

  /** A request lacking a truthy username, email or password is refused
      with 400 and changes nothing, whatever else it holds. */
  lemma CreateUserMissingFields(t: Tables, body: Body, salt: Salt, now: nat)
    requires Valid(t)
    requires !Truthy(Get(body, "username")) || !Truthy(Get(body, "email")) || !Truthy(Get(body, "password"))
    ensures UserListPost(t, body, salt, now) == (t, ErrorReply(400, MissingRequired))
  {
  }

  /** The username is checked before the email: a request repeating both
      gets the username message, and nothing changes. */
  lemma CreateUserUsernameFirst(t: Tables, body: Body, salt: Salt, now: nat)
    requires Valid(t) && HasRequiredUserFields(body)
    requires UsernameTaken(t.users, body["username"])
    ensures UserListPost(t, body, salt, now) == (t, ErrorReply(400, UsernameExists))
  {
  }

  /** With the username free, a taken email is refused, and nothing changes. */
  lemma CreateUserEmailTaken(t: Tables, body: Body, salt: Salt, now: nat)
    requires Valid(t) && HasRequiredUserFields(body)
    requires !BindAsText(body["username"]).BindError? && !UsernameTaken(t.users, body["username"])
    requires EmailTaken(t.users, body["email"])
    ensures UserListPost(t, body, salt, now) == (t, ErrorReply(400, EmailExists))
  {
  }

  /** A username or email the driver cannot bind makes its lookup raise:
      500, with nothing written. The username lookup runs first. */
  lemma CreateUserUnbindable(t: Tables, body: Body, salt: Salt, now: nat)
    requires Valid(t) && HasRequiredUserFields(body)
    requires BindAsText(body["username"]).BindError?
             || (!UsernameTaken(t.users, body["username"]) && BindAsText(body["email"]).BindError?)
    ensures UserListPost(t, body, salt, now) == (t, ServerError)
  {
  }

  /** A create is answered 201 exactly when the three fields are truthy,
      the password is a string, neither lookup finds a row, and the new row,
      under the next id and stamped now, meets the schema. */
  lemma CreateUserCommits(t: Tables, body: Body, salt: Salt, now: nat)
    requires Valid(t)
    ensures UserListPost(t, body, salt, now).1.status == 201 <==>
      HasRequiredUserFields(body) && body["password"].Str?
      && !UsernameTaken(t.users, body["username"]) && !EmailTaken(t.users, body["email"])
      && UserRowOk(UserFromBody(body, body["password"].s, salt).(id := t.nextUserId, createdAt := now, updatedAt := now))
  {
  }

  /** A successful create adds exactly one user, holding the given username
      and email, names defaulting to '', not an admin, whose password checks
      against the one sent; the reply carries no password hash. */
  lemma CreateUserSuccess(t: Tables, body: Body, salt: Salt, now: nat)
    requires Valid(t)
    ensures var (t', reply) := UserListPost(t, body, salt, now);
      reply.status == 201 ==>
      HasRequiredUserFields(body) && body["password"].Str?
      && !UsernameTaken(t.users, body["username"]) && !EmailTaken(t.users, body["email"])
      && t.nextUserId !in t.users && t.nextUserId in t'.users
      && t' == t.(users := t.users[t.nextUserId := t'.users[t.nextUserId]], nextUserId := t.nextUserId + 1)
      && var u := t'.users[t.nextUserId];
         u.username == body["username"] && u.email == body["email"]
         && u.firstName == Get(body, "first_name", Str(""))
         && u.lastName == Get(body, "last_name", Str(""))
         && !u.isAdmin && u.isActive
         && (forall p :: CheckPassword(u, p) <==> BcryptKey(p) == BcryptKey(body["password"].s))
         && (|body["password"].s| < KeyLength ==>
               forall p :: CheckPassword(u, p) <==> p == body["password"].s)
         && reply == Reply(201, Dict(UserToDict(u)))
         && "password_hash" !in reply.body.entries
  {
    if HasRequiredUserFields(body) && !UsernameTaken(t.users, body["username"])
       && !EmailTaken(t.users, body["email"]) && body["password"].Str?
    {
      var r := InsertUser(t, UserFromBody(body, body["password"].s, salt), now);
      if r.Committed? {
        assert UserListPost(t, body, salt, now) == (r.tables, Reply(201, Dict(UserToDict(r.row))));
        if |body["password"].s| < KeyLength {
          forall p ensures CheckPassword(r.row, p) <==> p == body["password"].s {
            ShortKeyUnique(body["password"].s, p);
          }
        }
      }
    }
  }

  /** `user.username = data['username']` and so on, for the keys present in the body. */
  function ApplyUserFields(u: User, body: Body): (r: User)
    ensures r.(username := u.username, email := u.email, firstName := u.firstName,
               lastName := u.lastName) == u
  {
    u.(username := Get(body, "username", u.username),
       email := Get(body, "email", u.email),
       firstName := Get(body, "first_name", u.firstName),
       lastName := Get(body, "last_name", u.lastName))
  }

  /** The guard of `UserDetail.put/delete`. It reads the flag of the user
      being changed, not the caller's: anyone may change an admin, and an
      admin may change only itself. */
  predicate UserGuardAllows(t: Tables, caller: nat, userId: nat)
    requires userId in t.users
  {
    caller == userId || t.users[userId].isAdmin
  }

  /** PUT /users/<id>. */
  function UserDetailPut(t: Tables, caller: Option<nat>, userId: nat, body: Body, now: nat): (r: (Tables, Reply))
    requires Valid(t)
    ensures Valid(r.0)
    ensures r.1.status != 200 ==> r.0 == t
  {
    if caller.None? then (t, Unauthenticated)
    else if userId !in t.users then (t, NotFound)
    else if !UserGuardAllows(t, caller.value, userId) then (t, Forbidden)
    else
      match Session.UpdateUser(t, ApplyUserFields(t.users[userId], body), now)
      case IntegrityError => (t, ServerError)
      case Committed(t', row) => (t', Reply(200, Dict(UserToDict(row))))
  }

  /** DELETE /users/<id>. */
  function UserDetailDelete(t: Tables, caller: Option<nat>, userId: nat): (r: (Tables, Reply))
    requires Valid(t)
    ensures Valid(r.0)
    ensures r.1.status != 204 ==> r.0 == t
  {
    if caller.None? then (t, Unauthenticated)
    else if userId !in t.users then (t, NotFound)
    else if !UserGuardAllows(t, caller.value, userId) then (t, Forbidden)
    else
      match Session.DeleteUser(t, userId)
      case IntegrityError => (t, ServerError)
      case Committed(t', _) => (t', Reply(204, Str("")))
  }

  /** A missing user is reported before any ownership test; a caller that is
      neither the user nor looking at an admin's record is refused; neither
      changes anything. */
  lemma UserDetailRefusals(t: Tables, caller: nat, userId: nat, body: Body, now: nat)
    requires Valid(t)
    ensures userId !in t.users ==>
      UserDetailPut(t, Some(caller), userId, body, now) == (t, NotFound)
      && UserDetailDelete(t, Some(caller), userId) == (t, NotFound)
    ensures userId in t.users && caller != userId && !t.users[userId].isAdmin ==>
      UserDetailPut(t, Some(caller), userId, body, now) == (t, Forbidden)
      && UserDetailDelete(t, Some(caller), userId) == (t, Forbidden)
  {
  }

  /** A delete succeeds exactly when the caller passes the guard and the
      user owns no post; it then removes that user and nothing else. A user
      who owns a post is not removed and the reply is a server error. */
  lemma UserDeleteOutcome(t: Tables, caller: Option<nat>, userId: nat)
    requires Valid(t)
    ensures var (t', reply) := UserDetailDelete(t, caller, userId);
      (reply.status == 204 <==>
         caller.Some? && userId in t.users && UserGuardAllows(t, caller.value, userId)
         && !OwnsPost(t, userId))
      && (reply.status == 204 ==>
            t'.users == t.users - {userId} && t'.posts == t.posts
            && t'.nextUserId == t.nextUserId && t'.nextPostId == t.nextPostId)
      && ((caller.Some? && userId in t.users && UserGuardAllows(t, caller.value, userId)
           && OwnsPost(t, userId)) ==>
            (t', reply) == (t, ServerError))
  {
  }

  /** As written, an admin caller is refused on another user's record, and
      any caller gets past the guard on an admin's record. */
  lemma UserGuardReadsTarget(t: Tables, caller: nat, userId: nat, body: Body, now: nat)
    requires Valid(t) && caller in t.users && userId in t.users && caller != userId
    ensures t.users[caller].isAdmin && !t.users[userId].isAdmin ==>
      UserDetailPut(t, Some(caller), userId, body, now).1 == Forbidden
      && UserDetailDelete(t, Some(caller), userId).1 == Forbidden
    ensures !t.users[caller].isAdmin && t.users[userId].isAdmin ==>
      UserDetailPut(t, Some(caller), userId, body, now).1.status in {200, 500}
      && UserDetailDelete(t, Some(caller), userId).1.status in {204, 500}
  {
  }

  /** The record `u'` is `u` with the fields `body` names written and the
      update time refreshed exactly when something changed. */
  predicate UserFieldsApplied(u: User, u': User, body: Body, now: nat) {
    u'.username == (if "username" in body then body["username"] else u.username)
    && u'.email == (if "email" in body then body["email"] else u.email)
    && u'.firstName == (if "first_name" in body then body["first_name"] else u.firstName)
    && u'.lastName == (if "last_name" in body then body["last_name"] else u.lastName)
    && u'.(username := u.username, email := u.email, firstName := u.firstName,
           lastName := u.lastName, updatedAt := u.updatedAt) == u
    && u'.updatedAt == (if u'.(updatedAt := u.updatedAt) == u then u.updatedAt else now)
  }

  /** A permitted update changes only the four fields the body names, only on
      that user (plus its update time when something changed); every other
      column and every other record stays. */
  lemma UserUpdateOnlyNamedFields(t: Tables, caller: Option<nat>, userId: nat, body: Body, now: nat)
    requires Valid(t)
    ensures var (t', reply) := UserDetailPut(t, caller, userId, body, now);
      reply.status == 200 ==>
      caller.Some? && userId in t.users && UserGuardAllows(t, caller.value, userId)
      && userId in t'.users && t' == t.(users := t.users[userId := t'.users[userId]])
      && UserFieldsApplied(t.users[userId], t'.users[userId], body, now)
      && reply == Reply(200, Dict(UserToDict(t'.users[userId])))
  {
    if caller.Some? && userId in t.users && UserGuardAllows(t, caller.value, userId) {
      var w := Session.UpdateUser(t, ApplyUserFields(t.users[userId], body), now);
      if w.Committed? {
        assert UserDetailPut(t, caller, userId, body, now) == (w.tables, Reply(200, Dict(UserToDict(w.row))));
      }
    }
  }

  /** An update answers 200 exactly when the caller passes the guard and the
      record it produces either equals the stored one (no UPDATE is issued)
      or meets the schema and clashes with no other user. */
  lemma UserUpdateCommits(t: Tables, caller: Option<nat>, userId: nat, body: Body, now: nat)
    requires Valid(t)
    ensures UserDetailPut(t, caller, userId, body, now).1.status == 200 <==>
      caller.Some? && userId in t.users && UserGuardAllows(t, caller.value, userId)
      && var u := ApplyUserFields(t.users[userId], body);
         u == t.users[userId]
         || (UserRowOk(u.(updatedAt := now)) && UniqueAmong(t.users, u.(updatedAt := now)))
  {
  }

  /** The update does not re-check uniqueness itself: renaming a user to
      another user's username is stopped only by the UNIQUE constraint, which
      surfaces as a server error with nothing changed. */
  lemma UserUpdateDuplicateUsername(t: Tables, caller: nat, userId: nat, other: nat, body: Body, now: nat)
    requires Valid(t) && userId in t.users && other in t.users && other != userId
    requires UserGuardAllows(t, caller, userId)
    requires "username" in body && body["username"] == t.users[other].username
    ensures UserDetailPut(t, Some(caller), userId, body, now) == (t, ServerError)
  {
    var u := ApplyUserFields(t.users[userId], body);
    assert UniqueAmong(t.users, t.users[other]);
  }

  // ---------------------------------------------------------------------
  // Posts

  /** The post `PostList.post` builds from the body, before it is saved. */
  function PostFromBody(body: Body, owner: nat): Post
    requires "title" in body && "content" in body
  {
    NewPost(body["title"], body["content"], owner,
            Get(body, "summary", Str("")), Get(body, "published", Bool(false)))
  }

  /** POST /posts/. */
  function PostListPost(t: Tables, caller: Option<nat>, body: Body, now: nat): (r: (Tables, Reply))
    requires Valid(t)
    ensures Valid(r.0)
    ensures r.1.status != 201 ==> r.0 == t
  {
    if caller.None? then (t, Unauthenticated)
    else if !Truthy(Get(body, "title")) || !Truthy(Get(body, "content")) then
      (t, ErrorReply(400, TitleContentRequired))
    else
      match InsertPost(t, PostFromBody(body, caller.value), now)
      case IntegrityError => (t, ServerError)
      case Committed(t', row) => (t', Reply(201, Dict(PostToDict(row))))
  }

  /** A created post belongs to the caller, with the title and content sent,
      `summary` defaulting to '' and `published` to False; it is the only change. */
  lemma PostCreateSuccess(t: Tables, caller: Option<nat>, body: Body, now: nat)
    requires Valid(t)
    ensures var (t', reply) := PostListPost(t, caller, body, now);
      reply.status == 201 ==>
      caller.Some? && caller.value in t.users
      && Truthy(body["title"]) && Truthy(body["content"])
      && t.nextPostId !in t.posts && t.nextPostId in t'.posts
      && t' == t.(posts := t.posts[t.nextPostId := t'.posts[t.nextPostId]], nextPostId := t.nextPostId + 1)
      && var p := t'.posts[t.nextPostId];
         p.userId == caller.value && p.title == body["title"] && p.content == body["content"]
         && p.summary == Get(body, "summary", Str(""))
         && p.published.Bool?
         && (Get(body, "published").Null? ==> p.published == Bool(false))
         && (!Get(body, "published").Null? ==> BooleanColumn(body["published"]) == Some(p.published.b))
         && reply == Reply(201, Dict(PostToDict(p)))
  {
    if caller.Some? && Truthy(Get(body, "title")) && Truthy(Get(body, "content")) {
      var w := InsertPost(t, PostFromBody(body, caller.value), now);
      if w.Committed? {
        assert PostListPost(t, caller, body, now) == (w.tables, Reply(201, Dict(PostToDict(w.row))));
      }
    }
  }

  /** A create by a stored caller with a truthy title and content answers
      201 exactly when the row it writes (with `published` read by the
      Boolean column, None taking the default False) meets the schema. */
  lemma PostCreateCommits(t: Tables, caller: Option<nat>, body: Body, now: nat)
    requires Valid(t)
    ensures PostListPost(t, caller, body, now).1.status == 201 <==>
      caller.Some? && Truthy(Get(body, "title")) && Truthy(Get(body, "content"))
      && caller.value in t.users
      && var stored := StoredPost(InsertedPostRow(t, PostFromBody(body, caller.value), now));
         stored.Some? && PostRowOk(stored.value)
  {
  }

  /** A post request without a truthy title and content is refused with 400. */
  lemma PostCreateNeedsTitleAndContent(t: Tables, caller: nat, body: Body, now: nat)
    requires Valid(t)
    requires !Truthy(Get(body, "title")) || !Truthy(Get(body, "content"))
    ensures PostListPost(t, Some(caller), body, now) == (t, ErrorReply(400, TitleContentRequired))
  {
  }

  /** `post.title = data['title']` and so on, for the keys present in the body. */
  function ApplyPostFields(p: Post, body: Body): (r: Post)
    ensures r.(title := p.title, content := p.content, summary := p.summary,
               published := p.published) == p
  {
    p.(title := Get(body, "title", p.title),
       content := Get(body, "content", p.content),
       summary := Get(body, "summary", p.summary),
       published := Get(body, "published", p.published))
  }

  /** PUT /posts/<id>: only the owner; there is no admin override. */
  function PostDetailPut(t: Tables, caller: Option<nat>, postId: nat, body: Body, now: nat): (r: (Tables, Reply))
    requires Valid(t)
    ensures Valid(r.0)
    ensures r.1.status != 200 ==> r.0 == t
  {
    if caller.None? then (t, Unauthenticated)
    else if postId !in t.posts then (t, NotFound)
    else if t.posts[postId].userId != caller.value then (t, Forbidden)
    else
      match Session.UpdatePost(t, ApplyPostFields(t.posts[postId], body), now)
      case IntegrityError => (t, ServerError)
      case Committed(t', row) => (t', Reply(200, Dict(PostToDict(row))))
  }

  /** The row `p'` is `p` with the fields `body` names written, `published`
      through the Boolean column, and the update time refreshed exactly when
      something changed. */
  predicate PostFieldsApplied(p: Post, p': Post, body: Body, now: nat) {
    p'.title == (if "title" in body then body["title"] else p.title)
    && p'.content == (if "content" in body then body["content"] else p.content)
    && p'.summary == (if "summary" in body then body["summary"] else p.summary)
    && p'.published.Bool?
    && (if "published" in body then BooleanColumn(body["published"]) == Some(p'.published.b)
        else BooleanColumn(p.published) == Some(p'.published.b))
    && p'.(title := p.title, content := p.content, summary := p.summary,
           published := p.published, updatedAt := p.updatedAt) == p
    && p'.updatedAt == (if p'.(updatedAt := p.updatedAt) == p then p.updatedAt else now)
  }

  /** Saving a stored post after `ApplyPostFields` writes the named fields and
      touches no other row. */
  lemma SavedPostFields(t: Tables, postId: nat, body: Body, now: nat)
    requires Valid(t) && postId in t.posts
    ensures var w := Session.UpdatePost(t, ApplyPostFields(t.posts[postId], body), now);
      w.Committed? ==>
      w.tables == t.(posts := t.posts[postId := w.row])
      && PostFieldsApplied(t.posts[postId], w.row, body, now)
  {
  }

  /** A permitted update changes only the four fields the body names, only on
      that post (plus its update time when something changed), `published`
      going through the Boolean column; every other record stays. */
  lemma PostUpdateOnlyNamedFields(t: Tables, caller: Option<nat>, postId: nat, body: Body, now: nat)
    requires Valid(t)
    ensures var (t', reply) := PostDetailPut(t, caller, postId, body, now);
      reply.status == 200 ==>
      caller.Some? && postId in t.posts && t.posts[postId].userId == caller.value
      && postId in t'.posts && t' == t.(posts := t.posts[postId := t'.posts[postId]])
      && PostFieldsApplied(t.posts[postId], t'.posts[postId], body, now)
      && reply == Reply(200, Dict(PostToDict(t'.posts[postId])))
  {
    if caller.Some? && postId in t.posts && t.posts[postId].userId == caller.value {
      SavedPostFields(t, postId, body, now);
      var w := Session.UpdatePost(t, ApplyPostFields(t.posts[postId], body), now);
      if w.Committed? {
        assert PostDetailPut(t, caller, postId, body, now) == (w.tables, Reply(200, Dict(PostToDict(w.row))));
      }
    }
  }

  /** An update answers 200 exactly when the caller owns the post, the
      Boolean column accepts `published`, and the row it produces either
      equals the stored one or meets the schema. */
  lemma PostUpdateCommits(t: Tables, caller: Option<nat>, postId: nat, body: Body, now: nat)
    requires Valid(t)
    ensures PostDetailPut(t, caller, postId, body, now).1.status == 200 <==>
      caller.Some? && postId in t.posts && t.posts[postId].userId == caller.value
      && var stored := StoredPost(ApplyPostFields(t.posts[postId], body));
         stored.Some? && (stored.value == t.posts[postId] || PostRowOk(stored.value.(updatedAt := now)))
  {
  }

  /** DELETE /posts/<id>: only the owner; there is no admin override. */
  function PostDetailDelete(t: Tables, caller: Option<nat>, postId: nat): (r: (Tables, Reply))
    requires Valid(t)
    ensures Valid(r.0)
    ensures r.1.status != 204 ==> r.0 == t
  {
    if caller.None? then (t, Unauthenticated)
    else if postId !in t.posts then (t, NotFound)
    else if t.posts[postId].userId != caller.value then (t, Forbidden)
    else (DeletePost(t, postId), Reply(204, Str("")))
  }

  /** Changing or deleting a post succeeds only for its owner, an admin
      included; a delete by the owner removes exactly that post. */
  lemma PostChangesNeedOwner(t: Tables, caller: Option<nat>, postId: nat, body: Body, now: nat)
    requires Valid(t)
    ensures PostDetailPut(t, caller, postId, body, now).1.status == 200 ==>
      caller.Some? && postId in t.posts && t.posts[postId].userId == caller.value
    ensures PostDetailDelete(t, caller, postId).1.status == 204 <==>
      caller.Some? && postId in t.posts && t.posts[postId].userId == caller.value
    ensures PostDetailDelete(t, caller, postId).1.status == 204 ==>
      var t' := PostDetailDelete(t, caller, postId).0;
      t'.posts.Keys == t.posts.Keys - {postId} && t'.users == t.users
      && forall id :: id in t'.posts ==> t'.posts[id] == t.posts[id]
  {
  }

  /** An admin who does not own a post is refused like anyone else. */
  lemma PostNoAdminOverride(t: Tables, caller: nat, postId: nat, body: Body, now: nat)
    requires Valid(t) && caller in t.users && t.users[caller].isAdmin
    requires postId in t.posts && t.posts[postId].userId != caller
    ensures PostDetailPut(t, Some(caller), postId, body, now) == (t, Forbidden)
    ensures PostDetailDelete(t, Some(caller), postId) == (t, Forbidden)
  {
  }

  /** Every handler behind `@jwt_required()` answers 401 without a valid token
      and changes nothing. */
  lemma TokenRequired(t: Tables, id: nat, body: Body, now: nat)
    requires Valid(t)
    ensures UserDetailPut(t, None, id, body, now) == (t, Unauthenticated)
    ensures UserDetailDelete(t, None, id) == (t, Unauthenticated)
    ensures PostListPost(t, None, body, now) == (t, Unauthenticated)
    ensures PostDetailPut(t, None, id, body, now) == (t, Unauthenticated)
    ensures PostDetailDelete(t, None, id) == (t, Unauthenticated)
  {
  }

  // ---------------------------------------------------------------------
  // The store the handlers share

  class Store {
    var users: map<nat, User>
    var posts: map<nat, Post>
    var nextUserId: nat
    var nextPostId: nat

    function State(): Tables
      reads this
    {
      Tables(users, posts, nextUserId, nextPostId)
    }

    ghost predicate Valid()
      reads this
    {
      Session.Valid(State())
    }

    constructor ()
      ensures Valid() && State() == EmptyTables()
    {
      users, posts := map[], map[];
      nextUserId, nextPostId := 1, 1;
    }

    /** `user.save()` for a new user. */
    method SaveNewUser(u: User, now: nat) returns (stored: Option<User>)
      requires Valid()
      modifies this
      ensures Valid()
      ensures match InsertUser(old(State()), u, now)
        case Committed(t, row) => State() == t && stored == Some(row)
        case IntegrityError => State() == old(State()) && stored == None
    {
      var row := u.(id := nextUserId, createdAt := now, updatedAt := now);
      if UserRowOk(row) && UniqueAmong(users, row) {
        users := users[row.id := row];
        nextUserId := nextUserId + 1;
        stored := Some(row);
        assert InsertUser(old(State()), u, now) == Committed(State(), row);
      } else {
        stored := None;
      }
    }

    /** `user.save()` for a user already stored. */
    method SaveUser(u: User, now: nat) returns (stored: Option<User>)
      requires Valid() && u.id in users
      modifies this
      ensures Valid()
      ensures match Session.UpdateUser(old(State()), u, now)
        case Committed(t, row) => State() == t && stored == Some(row)
        case IntegrityError => State() == old(State()) && stored == None
    {
      if u == users[u.id] {
        stored := Some(u);
      } else {
        var row := u.(updatedAt := now);
        if UserRowOk(row) && UniqueAmong(users, row) {
          users := users[u.id := row];
          stored := Some(row);
          assert Session.UpdateUser(old(State()), u, now) == Committed(State(), row);
        } else {
          stored := None;
        }
      }
    }

    /** `post.save()` for a new post. */
    method SaveNewPost(p: Post, now: nat) returns (stored: Option<Post>)
      requires Valid()
      modifies this
      ensures Valid()
      ensures match InsertPost(old(State()), p, now)
        case Committed(t, row) => State() == t && stored == Some(row)
        case IntegrityError => State() == old(State()) && stored == None
    {
      var published := BooleanColumn(if p.published.Null? then Bool(false) else p.published);
      if published.None? {
        return None;
      }
      var row := p.(id := nextPostId, createdAt := now, updatedAt := now, published := Bool(published.value));
      if PostRowOk(row) && row.userId in users {
        posts := posts[row.id := row];
        nextPostId := nextPostId + 1;
        stored := Some(row);
      } else {
        stored := None;
      }
    }

    /** `post.save()` for a post already stored. */
    method SavePost(p: Post, now: nat) returns (stored: Option<Post>)
      requires Valid() && p.id in posts
      modifies this
      ensures Valid()
      ensures match Session.UpdatePost(old(State()), p, now)
        case Committed(t, row) => State() == t && stored == Some(row)
        case IntegrityError => State() == old(State()) && stored == None
    {
      var published := BooleanColumn(p.published);
      if published.None? {
        return None;
      }
      var row := p.(published := Bool(published.value));
      if row == posts[p.id] {
        return Some(row);
      }
      row := row.(updatedAt := now);
      if PostRowOk(row) && row.userId in users {
        posts := posts[p.id := row];
        stored := Some(row);
      } else {
        stored := None;
      }
    }

    /** `UserList.post`. */
    method CreateUser(body: Body, salt: Salt, now: nat) returns (reply: Reply)
      requires Valid()
      modifies this
      ensures Valid()
      ensures (State(), reply) == UserListPost(old(State()), body, salt, now)
    {
      if !Truthy(Get(body, "username")) || !Truthy(Get(body, "email")) || !Truthy(Get(body, "password")) {
        return ErrorReply(400, MissingRequired);
      }
      if BindAsText(body["username"]).BindError? {
        return ServerError;
      }
      if UsernameTaken(users, body["username"]) {
        return ErrorReply(400, UsernameExists);
      }
      if BindAsText(body["email"]).BindError? {
        return ServerError;
      }
      if EmailTaken(users, body["email"]) {
        return ErrorReply(400, EmailExists);
      }
      var user := NewUser(body["username"], body["email"],
                          Get(body, "first_name", Str("")), Get(body, "last_name", Str("")));
      if !body["password"].Str? {
        return ServerError;
      }
      user := SetPassword(user, body["password"].s, salt);
      var stored := SaveNewUser(user, now);
      match stored {
        case None => reply := ServerError;
        case Some(row) => reply := Reply(201, Dict(UserToDict(row)));
      }
    }

    /** `UserDetail.put`. */
    method UpdateUser(caller: Option<nat>, userId: nat, body: Body, now: nat) returns (reply: Reply)
      requires Valid()
      modifies this
      ensures Valid()
      ensures (State(), reply) == UserDetailPut(old(State()), caller, userId, body, now)
    {
      if caller.None? {
        return Unauthenticated;
      }
      if userId !in users {
        return NotFound;
      }
      var user := users[userId];
      if caller.value != userId && !user.isAdmin {
        return Forbidden;
      }
      if "username" in body {
        user := user.(username := body["username"]);
      }
      if "email" in body {
        user := user.(email := body["email"]);
      }
      if "first_name" in body {
        user := user.(firstName := body["first_name"]);
      }
      if "last_name" in body {
        user := user.(lastName := body["last_name"]);
      }
      assert user == ApplyUserFields(users[userId], body);
      var stored := SaveUser(user, now);
      match stored {
        case None => reply := ServerError;
        case Some(row) => reply := Reply(200, Dict(UserToDict(row)));
      }
    }

    /** `UserDetail.delete`. */
    method DeleteUser(caller: Option<nat>, userId: nat) returns (reply: Reply)
      requires Valid()
      modifies this
      ensures Valid()
      ensures (State(), reply) == UserDetailDelete(old(State()), caller, userId)
    {
      if caller.None? {
        return Unauthenticated;
      }
      if userId !in users {
        return NotFound;
      }
      var user := users[userId];
      if caller.value != userId && !user.isAdmin {
        return Forbidden;
      }
      if exists pid :: pid in posts && posts[pid].userId == userId {
        return ServerError;
      }
      users := users - {userId};
      reply := Reply(204, Str(""));
      assert Session.DeleteUser(old(State()), userId) == Committed(State(), user);
    }

    /** `PostList.post`. */
    method CreatePost(caller: Option<nat>, body: Body, now: nat) returns (reply: Reply)
      requires Valid()
      modifies this
      ensures Valid()
      ensures (State(), reply) == PostListPost(old(State()), caller, body, now)
    {
      if caller.None? {
        return Unauthenticated;
      }
      if !Truthy(Get(body, "title")) || !Truthy(Get(body, "content")) {
        return ErrorReply(400, TitleContentRequired);
      }
      var post := NewPost(body["title"], body["content"], caller.value,
                          Get(body, "summary", Str("")), Get(body, "published", Bool(false)));
      var stored := SaveNewPost(post, now);
      match stored {
        case None => reply := ServerError;
        case Some(row) => reply := Reply(201, Dict(PostToDict(row)));
      }
    }

    /** `PostDetail.put`. */
    method UpdatePost(caller: Option<nat>, postId: nat, body: Body, now: nat) returns (reply: Reply)
      requires Valid()
      modifies this
      ensures Valid()
      ensures (State(), reply) == PostDetailPut(old(State()), caller, postId, body, now)
    {
      if caller.None? {
        return Unauthenticated;
      }
      if postId !in posts {
        return NotFound;
      }
      var post := posts[postId];
      if post.userId != caller.value {
        return Forbidden;
      }
      if "title" in body {
        post := post.(title := body["title"]);
      }
      if "content" in body {
        post := post.(content := body["content"]);
      }
      if "summary" in body {
        post := post.(summary := body["summary"]);
      }
      if "published" in body {
        post := post.(published := body["published"]);
      }
      assert post == ApplyPostFields(posts[postId], body);
      var stored := SavePost(post, now);
      match stored {
        case None => reply := ServerError;
        case Some(row) => reply := Reply(200, Dict(PostToDict(row)));
      }
    }

    /** `PostDetail.delete`. */
    method DeletePost(caller: Option<nat>, postId: nat) returns (reply: Reply)
      requires Valid()
      modifies this
      ensures Valid()
      ensures (State(), reply) == PostDetailDelete(old(State()), caller, postId)
    {
      if caller.None? {
        return Unauthenticated;
      }
      if postId !in posts {
        return NotFound;
      }
      if posts[postId].userId != caller.value {
        return Forbidden;
      }
      posts := posts - {postId};
      reply := Reply(204, Str(""));
    }
  }
}
