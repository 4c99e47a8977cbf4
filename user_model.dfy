/** The `users` and `posts` tables of app/models/user.py: their records,
    the password hasher, `User.to_dict` and the declared column constraints. */
module UserModel {
  import opened Values
  import opened BaseModel

  // ---------------------------------------------------------------------
  // Password hasher

  /** bcrypt's output starts with the scheme and the cost, then 22 salt characters. */
  const BcryptPrefix := "$2b$12$"
  const SaltLength := 22

  /** The random salt a hash is made with; the randomness is a parameter here. */
  type Salt = s: string | |s| == SaltLength witness "abcdefghijklmnopqrstuv"

  /** bcrypt reads at most 72 bytes of the password and ignores the rest. */
  const KeyLength := 72

  /** The part of a password bcrypt hashes (counted in characters here). */
  function BcryptKey(password: string): (k: string)
    ensures |k| == if |password| < KeyLength then |password| else KeyLength
    ensures k <= password
  {
    if |password| < KeyLength then password else password[..KeyLength]
  }

  /** Stand-in for `generate_password_hash`: the salt is embedded in the
      output, so checking needs nothing but the stored string. */
  function GeneratePasswordHash(password: string, salt: Salt): string
    requires password != ""  // the hasher raises on an empty password
  {
    BcryptPrefix + salt + BcryptKey(password)
  }

  /** Stand-in for `check_password_hash(stored, password)`. */
  predicate CheckPasswordHash(stored: string, password: string) {
    |stored| >= |BcryptPrefix| + SaltLength
    && stored[..|BcryptPrefix|] == BcryptPrefix
    && stored[|BcryptPrefix| + SaltLength..] == BcryptKey(password)
  }

  /** Passwords shorter than the key length are their own key, so two of
      them share a key only when they are equal. */
  lemma {:induction false} ShortKeyUnique(p: string, q: string)
    requires |p| < KeyLength
    ensures BcryptKey(q) == BcryptKey(p) <==> q == p
  {
    if BcryptKey(q) == BcryptKey(p) {
      assert |BcryptKey(q)| == |p|;
      assert |q| < KeyLength;
    }
  }

  /** The hasher's contract: a hash verifies against exactly the passwords
      with the same first 72 characters, whatever the salt, so against the
      password alone when it is shorter than that; and the hash of such a
      password is never the password itself. */
  lemma {:induction false} HashThenCheck(password: string, salt: Salt, other: string)
    requires password != ""
    ensures CheckPasswordHash(GeneratePasswordHash(password, salt), other) <==>
      BcryptKey(other) == BcryptKey(password)
    ensures |password| < KeyLength ==>
      (CheckPasswordHash(GeneratePasswordHash(password, salt), other) <==> other == password)
    ensures |password| <= KeyLength ==> GeneratePasswordHash(password, salt) != password
  {
    var h := GeneratePasswordHash(password, salt);
    assert h[..|BcryptPrefix|] == BcryptPrefix;
    assert h[|BcryptPrefix| + SaltLength..] == BcryptKey(password);
    if |password| < KeyLength {
      ShortKeyUnique(password, other);
    }
  }

  /** Past 72 characters nothing counts: a long password's hash also
      verifies that password with anything appended. */
  lemma {:induction false} LongPasswordsShareHash(password: string, salt: Salt, suffix: string)
    requires |password| >= KeyLength
    ensures CheckPasswordHash(GeneratePasswordHash(password, salt), password + suffix)
  {
    assert (password + suffix)[..KeyLength] == password[..KeyLength];
    HashThenCheck(password, salt, password + suffix);
  }

  // ---------------------------------------------------------------------
  // Records

  /** A row of `users`. The columns a handler copies from a request body hold
      whatever value the body gave; the commit checks them against the schema. */
  datatype User = User(
    id: nat,
    username: Value,
    email: Value,
    passwordHash: Option<string>,
    firstName: Value,
    lastName: Value,
    isAdmin: bool,
    lastLogin: Option<nat>,
    isActive: bool,
    createdAt: nat,
    updatedAt: nat)

  /** A row of `posts`. */
  datatype Post = Post(
    id: nat,
    title: Value,
    content: Value,
    summary: Value,
    published: Value,
    userId: nat,
    isActive: bool,
    createdAt: nat,
    updatedAt: nat)

  /** `User(username=..., email=..., ...)` before it is flushed: the id and the
      two timestamps are filled in by the insert (0 stands for "not yet"), no
      password hash yet, `is_admin` False and `is_active` True by default. */
  function NewUser(username: Value, email: Value, firstName: Value := Null,
                   lastName: Value := Null, isAdmin: bool := false): (u: User)
    ensures u.isActive && u.passwordHash.None? && u.lastLogin.None?
    ensures u.isAdmin == isAdmin
  {
    User(0, username, email, None, firstName, lastName, isAdmin, None, true, 0, 0)
  }

  /** `Post(title=..., ...)` before it is flushed; `published` defaults to False. */
  function NewPost(title: Value, content: Value, userId: nat, summary: Value := Null,
                   published: Value := Bool(false)): (p: Post)
    ensures p.isActive && p.userId == userId
  {
    Post(0, title, content, summary, published, userId, true, 0, 0)
  }

  /** `user.set_password(password)`. */
  function SetPassword(u: User, password: string, salt: Salt): (r: User)
    requires password != ""
    ensures r.passwordHash.Some?
    ensures |password| <= KeyLength ==> r.passwordHash.value != password
    ensures forall q :: CheckPasswordHash(r.passwordHash.value, q) <==> BcryptKey(q) == BcryptKey(password)
    ensures r.(passwordHash := u.passwordHash) == u
  {
    HashThenCheck(password, salt, password);
    forall q ensures CheckPasswordHash(GeneratePasswordHash(password, salt), q) <==> BcryptKey(q) == BcryptKey(password) {
      HashThenCheck(password, salt, q);
    }
    u.(passwordHash := Some(GeneratePasswordHash(password, salt)))
  }

  /** `user.check_password(password)`: a user with no stored hash verifies nothing. */
  predicate CheckPassword(u: User, password: string)
    ensures CheckPassword(u, password) ==> u.passwordHash.Some?
  {
    u.passwordHash.Some? && CheckPasswordHash(u.passwordHash.value, password)
  }

  /** After `set_password(p)`, `check_password(q)` holds exactly when `q`
      agrees with `p` on the characters bcrypt reads, which for a password
      shorter than 72 characters means `q == p`. */
  lemma SetThenCheckPassword(u: User, p: string, q: string, salt: Salt)
    requires p != ""
    ensures CheckPassword(SetPassword(u, p, salt), q) <==> BcryptKey(q) == BcryptKey(p)
    ensures |p| < KeyLength ==> (CheckPassword(SetPassword(u, p, salt), q) <==> q == p)
  {
    if |p| < KeyLength {
      ShortKeyUnique(p, q);
    }
  }

  // ---------------------------------------------------------------------
  // to_dict

  function TimeOrNull(t: Option<nat>): Value {
    match t
    case None => Null
    case Some(x) => Time(x)
  }

  /** The columns of `users`, in declaration order. */
  function UserColumns(u: User): Row {
    [ ("id", Int(u.id)), ("is_active", Bool(u.isActive)),
      ("created_at", Time(u.createdAt)), ("updated_at", Time(u.updatedAt)),
      ("username", u.username), ("email", u.email),
      ("password_hash", if u.passwordHash.Some? then Str(u.passwordHash.value) else Null),
      ("first_name", u.firstName), ("last_name", u.lastName),
      ("is_admin", Bool(u.isAdmin)), ("last_login", TimeOrNull(u.lastLogin)) ]
  }

  const UserColumnNames: set<string> :=
    {"id", "is_active", "created_at", "updated_at", "username", "email",
     "password_hash", "first_name", "last_name", "is_admin", "last_login"}

  /** `getattr(user, name)` for the column attributes of a user. */
  function UserAttr(u: User, name: string): Option<Value> {
    match name
    case "id" => Some(Int(u.id))
    case "is_active" => Some(Bool(u.isActive))
    case "created_at" => Some(Time(u.createdAt))
    case "updated_at" => Some(Time(u.updatedAt))
    case "username" => Some(u.username)
    case "email" => Some(u.email)
    case "password_hash" => Some(if u.passwordHash.Some? then Str(u.passwordHash.value) else Null)
    case "first_name" => Some(u.firstName)
    case "last_name" => Some(u.lastName)
    case "is_admin" => Some(Bool(u.isAdmin))
    case "last_login" => Some(TimeOrNull(u.lastLogin))
    case _ => None
  }

  /** `user.to_dict(include_sensitive)`: the base dictionary, without the
      password hash unless asked for. */
  function UserToDict(u: User, includeSensitive: bool := false): (r: map<string, Value>)
    ensures "password_hash" in r <==> includeSensitive
    ensures r.Keys == if includeSensitive then UserColumnNames else UserColumnNames - {"password_hash"}
  {
    UserBaseDict(u);
    var data := ToDict(UserColumns(u));
    if includeSensitive then data else data - {"password_hash"}
  }

  lemma UserColumnsNamed(u: User)
    ensures Names(UserColumns(u)) == UserColumnNames
  {
  }

  lemma UserColumnsAreAttributes(u: User)
    ensures forall i :: 0 <= i < |UserColumns(u)| ==>
      UserAttr(u, UserColumns(u)[i].0) == Some(UserColumns(u)[i].1)
  {
  }

  /** The base dictionary of a user has one key per column of `users`, each
      holding the attribute of that name. */
  lemma UserBaseDict(u: User)
    ensures ToDict(UserColumns(u)).Keys == UserColumnNames
    ensures forall k :: k in ToDict(UserColumns(u)) ==> UserAttr(u, k) == Some(ToDict(UserColumns(u))[k])
  {
    UserColumnsNamed(u);
    UserColumnsAreAttributes(u);
    ToDictFromAttributes(UserColumns(u), n => UserAttr(u, n));
  }

  /** By default `to_dict` never exposes the password hash; apart from it,
      its keys and values are those of the base dictionary. */
  lemma UserToDictHidesHash(u: User)
    ensures "password_hash" !in UserToDict(u)
    ensures UserToDict(u).Keys == UserColumnNames - {"password_hash"}
    ensures forall k :: k in UserToDict(u) ==> UserToDict(u)[k] == ToDict(UserColumns(u))[k]
    ensures forall k :: k in UserToDict(u) ==> UserAttr(u, k) == Some(UserToDict(u)[k])
  {
    UserBaseDict(u);
  }

  /** With `include_sensitive=True` the dictionary is the base one, hash included. */
  lemma UserToDictSensitive(u: User)
    ensures UserToDict(u, true) == ToDict(UserColumns(u))
    ensures "password_hash" in UserToDict(u, true)
    ensures UserToDict(u, true)["password_hash"] ==
      if u.passwordHash.Some? then Str(u.passwordHash.value) else Null
  {
    ToDictLookup(UserColumns(u), 6);
  }

  /** The columns of `posts`, in declaration order. */
  function PostColumns(p: Post): Row {
    [ ("id", Int(p.id)), ("is_active", Bool(p.isActive)),
      ("created_at", Time(p.createdAt)), ("updated_at", Time(p.updatedAt)),
      ("title", p.title), ("content", p.content), ("summary", p.summary),
      ("published", p.published), ("user_id", Int(p.userId)) ]
  }

  const PostColumnNames: set<string> :=
    {"id", "is_active", "created_at", "updated_at", "title", "content", "summary",
     "published", "user_id"}

  /** `getattr(post, name)` for the column attributes of a post. */
  function PostAttr(p: Post, name: string): Option<Value> {
    match name
    case "id" => Some(Int(p.id))
    case "is_active" => Some(Bool(p.isActive))
    case "created_at" => Some(Time(p.createdAt))
    case "updated_at" => Some(Time(p.updatedAt))
    case "title" => Some(p.title)
    case "content" => Some(p.content)
    case "summary" => Some(p.summary)
    case "published" => Some(p.published)
    case "user_id" => Some(Int(p.userId))
    case _ => None
  }

  lemma PostColumnsNamed(p: Post)
    ensures Names(PostColumns(p)) == PostColumnNames
  {
  }

  lemma PostColumnsAreAttributes(p: Post)
    ensures forall i :: 0 <= i < |PostColumns(p)| ==>
      PostAttr(p, PostColumns(p)[i].0) == Some(PostColumns(p)[i].1)
  {
  }

  /** `post.to_dict()`: the base dictionary, with one key per column of
      `posts`, each holding the attribute of that name. */
  function PostToDict(p: Post): (r: map<string, Value>)
    ensures r.Keys == PostColumnNames
    ensures forall k :: k in r ==> PostAttr(p, k) == Some(r[k])
  {
    PostColumnsNamed(p);
    PostColumnsAreAttributes(p);
    ToDictFromAttributes(PostColumns(p), n => PostAttr(p, n));
    ToDict(PostColumns(p))
  }

  // ---------------------------------------------------------------------
  // Declared column constraints (checked when a row is written)

  /** `db.String(n)`, NOT NULL. */
  predicate IsText(v: Value, maxLen: nat) {
    v.Str? && |v.s| <= maxLen
  }

  /** `db.String(n)`, nullable. */
  predicate IsNullableText(v: Value, maxLen: nat) {
    v.Null? || IsText(v, maxLen)
  }

  /** The single-row constraints of `users`: username String(80) and email
      String(120) NOT NULL, password_hash NOT NULL, names String(50). */
  predicate UserRowOk(u: User) {
    IsText(u.username, 80) && IsText(u.email, 120) && u.passwordHash.Some?
    && IsNullableText(u.firstName, 50) && IsNullableText(u.lastName, 50)
  }

  /** The single-row constraints of `posts` (the owner is checked against
      the users table separately): title String(200) and content Text NOT
      NULL, summary String(500), published Boolean NOT NULL. */
  predicate PostRowOk(p: Post) {
    IsText(p.title, 200) && p.content.Str? && IsNullableText(p.summary, 500) && p.published.Bool?
  }

  /** What the Boolean column stores for a value: True/False, or 1/0 (equal
      to them in Python); anything else is refused before the write. */
  function BooleanColumn(v: Value): (r: Option<bool>)
    ensures v.Bool? ==> r == Some(v.b)
    ensures r.Some? ==> v.Bool? || v == Int(0) || v == Int(1)
  {
    match v
    case Bool(b) => Some(b)
    case Int(i) => if i == 0 then Some(false) else if i == 1 then Some(true) else None
    case _ => None
  }
}
