/** The database behind the models: the `users` and `posts` tables as maps
    from id to row, and what `BaseModel.save()` and `BaseModel.delete()`
    (app/models/base.py) do to them when the session commits. A commit that
    breaks a declared constraint raises, the transaction is rolled back and
    the tables are left as they were. */
module Session {
  import opened Values
  import opened UserModel

  datatype Tables = Tables(
    users: map<nat, User>,
    posts: map<nat, Post>,
    nextUserId: nat,   // the id the next inserted user gets
    nextPostId: nat)

  /** A database with no rows. */
  function EmptyTables(): (t: Tables)
    ensures Valid(t)
  {
    Tables(map[], map[], 1, 1)
  }

  /** The UNIQUE constraints on username and email, for row `u` among `users`. */
  predicate UniqueAmong(users: map<nat, User>, u: User) {
    forall id :: id in users && id != u.id ==>
      users[id].username != u.username && users[id].email != u.email
  }

  /** Every constraint the schema declares holds: ids are keys, the columns
      have their types and lengths, username and email are unique, and every
      post's `user_id` names an existing user. */
  ghost predicate Valid(t: Tables)
    ensures Valid(t) ==> t.nextUserId !in t.users && t.nextPostId !in t.posts
    ensures Valid(t) ==> 0 !in t.users && 0 !in t.posts
  {
    1 <= t.nextUserId && 1 <= t.nextPostId
    && (forall id :: id in t.users ==>
          1 <= id < t.nextUserId && t.users[id].id == id
          && UserRowOk(t.users[id]) && UniqueAmong(t.users, t.users[id]))
    && (forall id :: id in t.posts ==>
          1 <= id < t.nextPostId && t.posts[id].id == id
          && PostRowOk(t.posts[id]) && t.posts[id].userId in t.users)
  }

  /** Outcome of a commit: the new tables and the row as stored, or a
      constraint violation with nothing written. */
  datatype Saved<R> = Committed(tables: Tables, row: R) | IntegrityError

  /** `user.save()` for a new user: the insert takes the next id and stamps both timestamps. */
  function InsertUser(t: Tables, u: User, now: nat): (r: Saved<User>)
    requires Valid(t)
    ensures r.Committed? ==> Valid(r.tables)
    ensures r.Committed? ==>
      r.row.id == t.nextUserId && r.row.id !in t.users
      && r.row.(id := u.id, createdAt := u.createdAt, updatedAt := u.updatedAt) == u
      && r.row.createdAt == now && r.row.updatedAt == now
      && r.tables.users == t.users[r.row.id := r.row]
      && r.tables.posts == t.posts && r.tables.nextPostId == t.nextPostId
    ensures r.IntegrityError? <==>
      !UserRowOk(u) || exists id :: id in t.users && (t.users[id].username == u.username || t.users[id].email == u.email)
  {
    var row := u.(id := t.nextUserId, createdAt := now, updatedAt := now);
    if UserRowOk(row) && UniqueAmong(t.users, row) then
      Committed(t.(users := t.users[row.id := row], nextUserId := t.nextUserId + 1), row)
    else IntegrityError
  }

  /** `user.save()` for a user already stored: `updated_at` is refreshed
      only when some column actually changed (no UPDATE is issued otherwise). */
  function UpdateUser(t: Tables, u: User, now: nat): (r: Saved<User>)
    requires Valid(t) && u.id in t.users
    ensures r.Committed? ==> Valid(r.tables)
    ensures r.Committed? ==>
      r.tables == t.(users := t.users[u.id := r.row])
      && r.row.(updatedAt := u.updatedAt) == u
      && r.row.updatedAt == (if u == t.users[u.id] then u.updatedAt else now)
    ensures u == t.users[u.id] ==> r == Committed(t, u)
    ensures r.IntegrityError? <==>
      u != t.users[u.id] && !(UserRowOk(u.(updatedAt := now)) && UniqueAmong(t.users, u.(updatedAt := now)))
  {
    if u == t.users[u.id] then Committed(t, u)
    else
      var row := u.(updatedAt := now);
      if UserRowOk(row) && UniqueAmong(t.users, row) then
        var t' := t.(users := t.users[u.id := row]);
        assert forall id :: id in t'.users && id != u.id ==> t'.users[id] == t.users[id];
        assert Valid(t') by {
          forall id | id in t'.users ensures UniqueAmong(t'.users, t'.users[id]) {
            if id != u.id {
              assert UniqueAmong(t.users, t.users[id]);
            }
          }
        }
        Committed(t', row)
      else IntegrityError
  }

  /** Whether user `id` owns a post. */
  predicate OwnsPost(t: Tables, id: nat) {
    exists pid :: pid in t.posts && t.posts[pid].userId == id
  }

  /** `user.delete()`: the user's posts would have their NOT NULL `user_id`
      cleared, so a user who owns a post cannot be deleted; otherwise exactly
      that row goes. */
  function DeleteUser(t: Tables, id: nat): (r: Saved<User>)
    requires Valid(t) && id in t.users
    ensures r.IntegrityError? <==> OwnsPost(t, id)
    ensures r.Committed? ==>
      Valid(r.tables) && r.row == t.users[id] && r.tables == t.(users := t.users - {id})
  {
    if OwnsPost(t, id) then IntegrityError
    else Committed(t.(users := t.users - {id}), t.users[id])
  }

  /** What a post row holds once written: `published` as stored by the Boolean column. */
  function StoredPost(p: Post): (r: Option<Post>)
    ensures r.Some? ==> r.value.published.Bool? && r.value.(published := p.published) == p
    ensures r.None? <==> BooleanColumn(p.published).None?
  {
    match BooleanColumn(p.published)
    case None => None
    case Some(b) => Some(p.(published := Bool(b)))
  }

  /** The row an INSERT of `p` writes before the Boolean column reads
      `published`: the next id, both timestamps now, and the column default
      False standing in for a missing value (None). */
  function InsertedPostRow(t: Tables, p: Post, now: nat): Post {
    p.(id := t.nextPostId, createdAt := now, updatedAt := now,
       published := if p.published.Null? then Bool(false) else p.published)
  }

  /** `post.save()` for a new post. */
  function InsertPost(t: Tables, p: Post, now: nat): (r: Saved<Post>)
    requires Valid(t)
    ensures r.Committed? ==> Valid(r.tables)
    ensures r.Committed? ==>
      r.row.id == t.nextPostId && r.row.id !in t.posts
      && r.row.createdAt == now && r.row.updatedAt == now
      && r.row.(id := p.id, createdAt := p.createdAt, updatedAt := p.updatedAt, published := p.published) == p
      && r.tables.posts == t.posts[r.row.id := r.row]
      && r.tables.users == t.users && r.tables.nextUserId == t.nextUserId
    ensures r.Committed? ==> r.row.userId in t.users
    ensures r.Committed? && p.published.Null? ==> r.row.published == Bool(false)
    ensures r.Committed? && !p.published.Null? ==>
      r.row.published.Bool? && BooleanColumn(p.published) == Some(r.row.published.b)
    ensures p.published.Null? || BooleanColumn(p.published).Some? || r.IntegrityError?
    ensures r.IntegrityError? <==>
      var stored := StoredPost(InsertedPostRow(t, p, now));
      stored.None? || !PostRowOk(stored.value) || p.userId !in t.users
  {
    match StoredPost(InsertedPostRow(t, p, now))
    case None => IntegrityError
    case Some(row) =>
      if PostRowOk(row) && row.userId in t.users then
        Committed(t.(posts := t.posts[row.id := row], nextPostId := t.nextPostId + 1), row)
      else IntegrityError
  }

  /** `post.save()` for a post already stored. */
  function UpdatePost(t: Tables, p: Post, now: nat): (r: Saved<Post>)
    requires Valid(t) && p.id in t.posts
    ensures r.Committed? ==> Valid(r.tables)
    ensures r.Committed? ==>
      r.tables == t.(posts := t.posts[p.id := r.row])
      && r.row.(updatedAt := p.updatedAt, published := p.published) == p
    ensures r.Committed? ==>
      r.row.published.Bool? && BooleanColumn(p.published) == Some(r.row.published.b)
    ensures r.Committed? ==>
      r.row.updatedAt == if r.row.(updatedAt := p.updatedAt) == t.posts[p.id] then p.updatedAt else now
    ensures r.IntegrityError? <==>
      var stored := StoredPost(p);
      stored.None?
      || (stored.value != t.posts[p.id]
          && !(PostRowOk(stored.value.(updatedAt := now)) && p.userId in t.users))
  {
    match StoredPost(p)
    case None => IntegrityError
    case Some(row) =>
      if row == t.posts[p.id] then Committed(t, row)
      else
        var row' := row.(updatedAt := now);
        if PostRowOk(row') && row'.userId in t.users then
          Committed(t.(posts := t.posts[p.id := row']), row')
        else IntegrityError
  }

  /** `post.delete()`: exactly that row goes. */
  function DeletePost(t: Tables, id: nat): (r: Tables)
    requires Valid(t) && id in t.posts
    ensures Valid(r)
    ensures r.posts.Keys == t.posts.Keys - {id}
    ensures forall pid :: pid in r.posts ==> r.posts[pid] == t.posts[pid]
    ensures r.users == t.users && r.nextUserId == t.nextUserId && r.nextPostId == t.nextPostId
  {
    t.(posts := t.posts - {id})
  }
}
