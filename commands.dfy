/** The CLI commands of app/commands.py that touch the data or compute
    something: `seed_db`, `create_users` and `routes`. Their output lines
    (`click.echo`) are not modelled, except that `routes` returns the lines
    it would print, in order. */
module Commands {
  import opened Values
  import opened Text
  import opened UserModel
  import opened Session
  import Api

  // ---------------------------------------------------------------------
  // seed_db

  const AdminName := Str("admin")
  const AdminPassword := "Admin123!"

  /** `User.query.filter_by(username=name).first()` over the rows listed in `ids`. */
  function FindByUsername(users: map<nat, User>, ids: seq<nat>, name: Value): (r: Option<nat>)
    ensures r.Some? ==> r.value in ids && r.value in users && users[r.value].username == name
    ensures r.None? <==> forall id :: id in ids && id in users ==> users[id].username != name
  {
    if ids == [] then None
    else if ids[0] in users && users[ids[0]].username == name then Some(ids[0])
    else
      var r := FindByUsername(users, ids[1..], name);
      assert forall id :: id in ids ==> id == ids[0] || id in ids[1..];
      r
  }

  /** The lookup of the 'admin' user, rows in id order. */
  function AdminLookup(t: Tables): Option<nat> {
    FindByUsername(t.users, Api.IdsBelow(t.users, t.nextUserId), AdminName)
  }

  /** The lookup finds the one user named 'admin' when there is one. */
  lemma AdminLookupFinds(t: Tables)
    requires Valid(t)
    ensures AdminLookup(t).None? <==> !Api.UsernameTaken(t.users, AdminName)
    ensures forall id :: id in t.users && t.users[id].username == AdminName ==> AdminLookup(t) == Some(id)
  {
    var ids := Api.IdsBelow(t.users, t.nextUserId);
    forall id | id in t.users && t.users[id].username == AdminName
      ensures AdminLookup(t) == Some(id)
    {
      assert id in ids;
      var found := AdminLookup(t).value;
      assert UniqueAmong(t.users, t.users[found]);
    }
  }

  /** The admin `seed_db` builds: named 'admin', an administrator, with password 'Admin123!'. */
  function AdminUser(salt: Salt): (u: User)
    ensures u.username == AdminName && u.isAdmin && u.email == Str("admin@example.com")
    ensures forall p :: CheckPassword(u, p) <==> p == AdminPassword
  {
    var u := SetPassword(NewUser(AdminName, Str("admin@example.com"), Str("Admin"), Str("User"), true),
                         AdminPassword, salt);
    assert forall p :: CheckPassword(u, p) <==> p == AdminPassword by {
      forall p ensures CheckPassword(u, p) <==> p == AdminPassword {
        ShortKeyUnique(AdminPassword, p);
      }
    }
    u
  }

  function WelcomePost(adminId: nat): Post {
    NewPost(Str("Welcome to Flask Starter"), Str("This is your first blog post."), adminId,
            Str("Getting started with Flask"), Bool(true))
  }

  function DocsPost(adminId: nat): Post {
    NewPost(Str("API Documentation"), Str("Check out the API docs at /api/v1/docs"), adminId,
            Str("API Documentation Guide"), Bool(true))
  }

  /** The sample posts, written only into an empty post table. */
  function SeedPosts(t: Tables, adminId: nat, now: nat): (r: Tables)
    requires Valid(t) && adminId in t.users
    ensures Valid(r)
  {
    if |t.posts| != 0 then t
    else
      match InsertPost(t, WelcomePost(adminId), now)
      case IntegrityError => t
      case Committed(t1, _) =>
        match InsertPost(t1, DocsPost(adminId), now)
        case IntegrityError => t1
        case Committed(t2, _) => t2
  }

  /** Into an empty post table the seed writes exactly two posts, both
      published and owned by the admin; a non-empty one is left alone. */
  lemma SeedPostsOnlyIfEmpty(t: Tables, adminId: nat, now: nat)
    requires Valid(t) && adminId in t.users
    ensures |t.posts| != 0 ==> SeedPosts(t, adminId, now) == t
    ensures |t.posts| == 0 ==>
      var r := SeedPosts(t, adminId, now);
      r.users == t.users
      && r.posts.Keys == {t.nextPostId, t.nextPostId + 1}
      && (forall id :: id in r.posts ==> r.posts[id].published == Bool(true) && r.posts[id].userId == adminId)
      && r.posts[t.nextPostId].title == Str("Welcome to Flask Starter")
      && r.posts[t.nextPostId + 1].title == Str("API Documentation")
  {
    if |t.posts| == 0 {
      assert t.posts == map[];
      var p1 := WelcomePost(adminId).(id := t.nextPostId, createdAt := now, updatedAt := now);
      assert StoredPost(p1) == Some(p1);
      assert PostRowOk(p1);
      var r1 := InsertPost(t, WelcomePost(adminId), now);
      assert r1 == Committed(t.(posts := map[t.nextPostId := p1], nextPostId := t.nextPostId + 1), p1);
      var t1 := r1.tables;
      var p2 := DocsPost(adminId).(id := t1.nextPostId, createdAt := now, updatedAt := now);
      assert StoredPost(p2) == Some(p2);
      assert PostRowOk(p2);
      var r2 := InsertPost(t1, DocsPost(adminId), now);
      assert r2.tables.posts == map[t.nextPostId := p1, t.nextPostId + 1 := p2];
      assert SeedPosts(t, adminId, now) == r2.tables;
    }
  }

  /** Writing the sample posts touches neither the users nor an existing post. */
  lemma SeedPostsFrame(t: Tables, adminId: nat, now: nat)
    requires Valid(t) && adminId in t.users
    ensures SeedPosts(t, adminId, now).users == t.users
    ensures SeedPosts(t, adminId, now).nextUserId == t.nextUserId
    ensures |t.posts| != 0 ==> SeedPosts(t, adminId, now) == t
  {
  }

  /** `seed_db`: an 'admin' user unless one exists, then the sample posts
      when there are none. When writing the admin fails (another user already
      has its email) the command stops there and nothing is written. */
  function Seed(t: Tables, salt: Salt, now: nat): (r: Tables)
    requires Valid(t)
    ensures Valid(r)
  {
    match AdminLookup(t)
    case Some(adminId) => SeedPosts(t, adminId, now)
    case None =>
      match InsertUser(t, AdminUser(salt), now)
      case IntegrityError => t
      case Committed(t1, admin) => SeedPosts(t1, admin.id, now)
  }

  /** Seeding never changes or removes a row that was there. */
  lemma SeedKeepsRows(t: Tables, salt: Salt, now: nat)
    requires Valid(t)
    ensures var r := Seed(t, salt, now);
      (forall id :: id in t.users ==> id in r.users && r.users[id] == t.users[id])
      && (forall id :: id in t.posts ==> id in r.posts && r.posts[id] == t.posts[id])
  {
    match AdminLookup(t)
    case Some(adminId) =>
      SeedPostsFrame(t, adminId, now);
    case None =>
      if InsertUser(t, AdminUser(salt), now).Committed? {
        InsertThenSeedPostsKeepsRows(t, AdminUser(salt), now);
      }
  }

  /** Inserting a user and then the sample posts keeps every earlier row. */
  lemma InsertThenSeedPostsKeepsRows(t: Tables, u: User, now: nat)
    requires Valid(t) && InsertUser(t, u, now).Committed?
    ensures var w := InsertUser(t, u, now);
      var r := SeedPosts(w.tables, w.row.id, now);
      (forall id :: id in t.users ==> id in r.users && r.users[id] == t.users[id])
      && (forall id :: id in t.posts ==> id in r.posts && r.posts[id] == t.posts[id])
  {
    var w := InsertUser(t, u, now);
    SeedPostsFrame(w.tables, w.row.id, now);
    forall id | id in t.users ensures w.tables.users[id] == t.users[id] {
      assert id != w.row.id;
    }
  }

  /** A user named 'admin' already there means no user is written. */
  lemma SeedKeepsExistingAdmin(t: Tables, salt: Salt, now: nat)
    requires Valid(t) && Api.UsernameTaken(t.users, AdminName)
    ensures Seed(t, salt, now).users == t.users
  {
    AdminLookupFinds(t);
    SeedPostsFrame(t, AdminLookup(t).value, now);
  }

  /** Otherwise, unless its email is taken, seeding writes exactly one new
      user, under the next id: the admin of `AdminUser` (named 'admin', an
      administrator, password 'Admin123!'), stamped with the time of the run. */
  lemma SeedAdminOnlyIfAbsent(t: Tables, salt: Salt, now: nat)
    requires Valid(t) && !Api.UsernameTaken(t.users, AdminName)
    requires !Api.EmailTaken(t.users, Str("admin@example.com"))
    ensures t.nextUserId !in t.users
    ensures Seed(t, salt, now).users ==
      t.users[t.nextUserId := AdminUser(salt).(id := t.nextUserId, createdAt := now, updatedAt := now)]
  {
    SeedWritesAdmin(t, salt, now);
    var w := InsertUser(t, AdminUser(salt), now);
    assert w.row == AdminUser(salt).(id := t.nextUserId, createdAt := now, updatedAt := now);
  }

  /** With neither its username nor its email taken, the admin row is
      inserted and the users table is what that insert left. */
  lemma SeedWritesAdmin(t: Tables, salt: Salt, now: nat)
    requires Valid(t) && !Api.UsernameTaken(t.users, AdminName)
    requires !Api.EmailTaken(t.users, Str("admin@example.com"))
    ensures InsertUser(t, AdminUser(salt), now).Committed?
    ensures Seed(t, salt, now).users == InsertUser(t, AdminUser(salt), now).tables.users
  {
    AdminLookupFinds(t);
    AdminWriteFailsIffEmailTaken(t, salt, now);
    var w := InsertUser(t, AdminUser(salt), now);
    SeedPostsFrame(w.tables, w.row.id, now);
  }

  /** Once seeding has run, the admin is found and the post table is not empty. */
  lemma SeedLeavesAdminAndPosts(t: Tables, salt: Salt, now: nat)
    requires Valid(t)
    ensures var r := Seed(t, salt, now);
      r != t ==> AdminLookup(r).Some? && |r.posts| != 0
  {
    AdminLookupFinds(t);
    match AdminLookup(t)
    case Some(adminId) =>
      SeedPostsOnlyIfEmpty(t, adminId, now);
      AdminLookupFinds(SeedPosts(t, adminId, now));
    case None =>
      match InsertUser(t, AdminUser(salt), now)
      case IntegrityError =>
      case Committed(t1, admin) =>
        SeedPostsOnlyIfEmpty(t1, admin.id, now);
        AdminLookupFinds(SeedPosts(t1, admin.id, now));
  }

  /** Writing the admin fails exactly when another user already has its
      email; a written admin is a change to the tables. */
  lemma AdminWriteFailsIffEmailTaken(t: Tables, salt: Salt, now: nat)
    requires Valid(t) && AdminLookup(t).None?
    ensures InsertUser(t, AdminUser(salt), now).IntegrityError? <==>
      Api.EmailTaken(t.users, Str("admin@example.com"))
    ensures InsertUser(t, AdminUser(salt), now).Committed? ==> Seed(t, salt, now) != t
  {
    AdminLookupFinds(t);
    var u := AdminUser(salt);
    assert UserRowOk(u.(id := t.nextUserId, createdAt := now, updatedAt := now));
    match InsertUser(t, u, now)
    case IntegrityError =>
    case Committed(t1, admin) =>
      SeedPostsOnlyIfEmpty(t1, admin.id, now);
      assert t.nextUserId in Seed(t, salt, now).users;
  }

  /** Running `seed_db` a second time changes nothing, whatever salt and
      time it runs with. */
  lemma {:induction false} SeedIdempotent(t: Tables, salt1: Salt, now1: nat, salt2: Salt, now2: nat)
    requires Valid(t)
    ensures Seed(Seed(t, salt1, now1), salt2, now2) == Seed(t, salt1, now1)
  {
    var r := Seed(t, salt1, now1);
    if r == t {
      AdminLookupFinds(t);
      match AdminLookup(t)
      case Some(adminId) =>
        SeedPostsOnlyIfEmpty(t, adminId, now1);
        SeedPostsOnlyIfEmpty(t, adminId, now2);
      case None =>
        // the admin could not be written; it cannot be on the second run either
        AdminWriteFailsIffEmailTaken(t, salt1, now1);
        AdminWriteFailsIffEmailTaken(t, salt2, now2);
    } else {
      SeedLeavesAdminAndPosts(t, salt1, now1);
      var adminId := AdminLookup(r).value;
      SeedPostsOnlyIfEmpty(r, adminId, now2);
    }
  }

  // ---------------------------------------------------------------------
  // create_users

  const SamplePassword := "Password123!"

  /** The fake identity `create_users` draws for one user. */
  datatype Profile = Profile(username: string, email: string, firstName: string, lastName: string)

  function ProfileUser(p: Profile, salt: Salt): User {
    SetPassword(NewUser(Str(p.username), Str(p.email), Str(p.firstName), Str(p.lastName)),
                SamplePassword, salt)
  }

  /** `create_users` over the drawn profiles: the users are written one at a
      time; a refused write (a repeated username or email) raises and stops
      the command, the earlier users staying. Also the number written. */
  function CreateUsersFrom(t: Tables, profiles: seq<Profile>, salts: seq<Salt>, now: nat): (r: (Tables, nat))
    requires Valid(t) && |salts| == |profiles|
    ensures Valid(r.0) && r.1 <= |profiles|
    decreases |profiles|
  {
    if profiles == [] then (t, 0)
    else
      match InsertUser(t, ProfileUser(profiles[0], salts[0]), now)
      case IntegrityError => (t, 0)
      case Committed(t1, _) =>
        var (t2, n) := CreateUsersFrom(t1, profiles[1..], salts[1..], now);
        (t2, n + 1)
  }

  /** `create_users` keeps the posts and every user that was there. */
  lemma {:induction false} CreateUsersKeepsRows(t: Tables, profiles: seq<Profile>, salts: seq<Salt>, now: nat)
    requires Valid(t) && |salts| == |profiles|
    ensures var r := CreateUsersFrom(t, profiles, salts, now).0;
      r.posts == t.posts
      && forall id :: id in t.users ==> id in r.users && r.users[id] == t.users[id]
    decreases |profiles|
  {
    if profiles != [] {
      match InsertUser(t, ProfileUser(profiles[0], salts[0]), now)
      case IntegrityError =>
      case Committed(t1, row) =>
        CreateUsersKeepsRows(t1, profiles[1..], salts[1..], now);
        assert CreateUsersFrom(t, profiles, salts, now).0 == CreateUsersFrom(t1, profiles[1..], salts[1..], now).0;
    }
  }

  /** The users written take the `n` ids that follow the old ones. */
  lemma {:induction false} CreateUsersAddsSampleUsers(t: Tables, profiles: seq<Profile>, salts: seq<Salt>, now: nat)
    requires Valid(t) && |salts| == |profiles|
    ensures var (r, n) := CreateUsersFrom(t, profiles, salts, now);
      r.nextUserId == t.nextUserId + n
      && forall id :: id in r.users <==> id in t.users || t.nextUserId <= id < t.nextUserId + n
    decreases |profiles|
  {
    if profiles != [] {
      match InsertUser(t, ProfileUser(profiles[0], salts[0]), now)
      case IntegrityError =>
      case Committed(t1, row) =>
        var (r, m) := CreateUsersFrom(t1, profiles[1..], salts[1..], now);
        CreateUsersAddsSampleUsers(t1, profiles[1..], salts[1..], now);
        assert CreateUsersFrom(t, profiles, salts, now) == (r, m + 1);
        forall id ensures id in r.users <==> id in t.users || t.nextUserId <= id < t.nextUserId + m + 1 {
          assert id in t1.users <==> id in t.users || id == t.nextUserId;
        }
    }
  }

  /** Every user written is a non-admin whose password is 'Password123!'. */
  lemma {:induction false} CreateUsersSamplePasswords(t: Tables, profiles: seq<Profile>, salts: seq<Salt>, now: nat)
    requires Valid(t) && |salts| == |profiles|
    ensures var r := CreateUsersFrom(t, profiles, salts, now).0;
      forall id :: id in r.users && id !in t.users ==>
        !r.users[id].isAdmin && CheckPassword(r.users[id], SamplePassword)
    decreases |profiles|
  {
    if profiles != [] {
      match InsertUser(t, ProfileUser(profiles[0], salts[0]), now)
      case IntegrityError =>
      case Committed(t1, row) =>
        CreateUsersSamplePasswords(t1, profiles[1..], salts[1..], now);
        CreateUsersKeepsRows(t1, profiles[1..], salts[1..], now);
        assert row.passwordHash == ProfileUser(profiles[0], salts[0]).passwordHash;
        assert !row.isAdmin && CheckPassword(row, SamplePassword);
    }
  }

  /** The profiles' usernames and emails are new and pairwise distinct, and
      fit their columns. */
  predicate FreshProfiles(users: map<nat, User>, profiles: seq<Profile>) {
    (forall i :: 0 <= i < |profiles| ==>
       |profiles[i].username| <= 80 && |profiles[i].email| <= 120
       && |profiles[i].firstName| <= 50 && |profiles[i].lastName| <= 50
       && !Api.UsernameTaken(users, Str(profiles[i].username))
       && !Api.EmailTaken(users, Str(profiles[i].email)))
    && (forall i, j :: 0 <= i < j < |profiles| ==>
          profiles[i].username != profiles[j].username && profiles[i].email != profiles[j].email)
  }

  /** With fresh profiles, exactly `count` users are written. */
  lemma {:induction false} CreateUsersWritesAll(t: Tables, profiles: seq<Profile>, salts: seq<Salt>, now: nat)
    requires Valid(t) && |salts| == |profiles|
    requires FreshProfiles(t.users, profiles)
    ensures CreateUsersFrom(t, profiles, salts, now).1 == |profiles|
    decreases |profiles|
  {
    if profiles != [] {
      var u := ProfileUser(profiles[0], salts[0]);
      assert UserRowOk(u.(id := t.nextUserId, createdAt := now, updatedAt := now));
      var r := InsertUser(t, u, now);
      assert r.Committed?;
      var rest := profiles[1..];
      forall i | 0 <= i < |rest|
        ensures !Api.UsernameTaken(r.tables.users, Str(rest[i].username))
        ensures !Api.EmailTaken(r.tables.users, Str(rest[i].email))
      {
        assert rest[i] == profiles[i + 1];
      }
      assert FreshProfiles(r.tables.users, rest);
      CreateUsersWritesAll(r.tables, rest, salts[1..], now);
    }
  }

  // ---------------------------------------------------------------------
  // routes

  /** A URL rule: its endpoint, its methods (in the order the set yields
      them) and its path. */
  datatype Rule = Rule(endpoint: string, methods: seq<string>, path: string)

  /** `rule.methods - {'HEAD', 'OPTIONS'}`. */
  function WithoutImplicit(methods: seq<string>): (r: seq<string>)
    ensures forall m :: m in r <==> m in methods && m != "HEAD" && m != "OPTIONS"
    ensures forall m :: m != "HEAD" && m != "OPTIONS" ==> multiset(r)[m] == multiset(methods)[m]
    ensures multiset(r)["HEAD"] == 0 && multiset(r)["OPTIONS"] == 0
  {
    if methods == [] then []
    else
      assert methods == [methods[0]] + methods[1..];
      (if methods[0] == "HEAD" || methods[0] == "OPTIONS" then [] else [methods[0]])
        + WithoutImplicit(methods[1..])
  }

  /** `','.join(sorted(rule.methods - {'HEAD', 'OPTIONS'}))`. */
  function MethodsField(methods: seq<string>): string {
    Join(SortStrings(WithoutImplicit(methods)), ",")
  }

  /** A rule with no method but HEAD and OPTIONS shows an empty method column. */
  lemma ImplicitMethodsOnly(methods: seq<string>)
    requires forall m :: m in methods ==> m == "HEAD" || m == "OPTIONS"
    ensures MethodsField(methods) == ""
  {
    var kept := WithoutImplicit(methods);
    assert forall i :: 0 <= i < |kept| ==> kept[i] in kept;
  }

  /** The method column does not depend on the order the set is iterated in. */
  lemma MethodsFieldOrderIndependent(a: seq<string>, b: seq<string>)
    requires multiset(a) == multiset(b)
    ensures MethodsField(a) == MethodsField(b)
  {
    forall m ensures multiset(WithoutImplicit(a))[m] == multiset(WithoutImplicit(b))[m] {
      if m != "HEAD" && m != "OPTIONS" {
        assert multiset(a)[m] == multiset(b)[m];
      }
    }
    assert multiset(WithoutImplicit(a)) == multiset(WithoutImplicit(b));
    SortOrderIndependent(WithoutImplicit(a), WithoutImplicit(b));
  }

  /** `f'{rule.endpoint:50s} {methods:20s} {rule.rule}'`. */
  function RouteLine(r: Rule): (line: string)
    ensures |line| >= |r.endpoint| && line[..|r.endpoint|] == r.endpoint
    ensures |line| >= |r.path| && line[|line| - |r.path|..] == r.path
  {
    PadRight(r.endpoint, 50) + " " + PadRight(MethodsField(r.methods), 20) + " " + r.path
  }

  /** With an endpoint of at most 50 characters and a method list of at most
      20, the columns line up: the path starts at column 72. */
  lemma RouteLineColumns(r: Rule)
    requires |r.endpoint| <= 50 && |MethodsField(r.methods)| <= 20
    ensures |RouteLine(r)| == 72 + |r.path|
    ensures RouteLine(r)[..|r.endpoint|] == r.endpoint
    ensures RouteLine(r)[51..51 + |MethodsField(r.methods)|] == MethodsField(r.methods)
    ensures RouteLine(r)[72..] == r.path
  {
    PaddedColumns(r.endpoint, MethodsField(r.methods), r.path);
  }

  lemma PaddedColumns(a: string, b: string, c: string)
    requires |a| <= 50 && |b| <= 20
    ensures var line := PadRight(a, 50) + " " + PadRight(b, 20) + " " + c;
      |line| == 72 + |c| && line[..|a|] == a && line[51..51 + |b|] == b && line[72..] == c
  {
    var e := PadRight(a, 50);
    var m := PadRight(b, 20);
    var head := e + " " + m + " ";
    assert |head| == 72;
    assert head[..|a|] == e[..|a|];
    assert head[51..51 + |b|] == m[..|b|];
    assert (head + c)[72..] == c;
    assert (head + c)[..|a|] == head[..|a|];
    assert (head + c)[51..51 + |b|] == head[51..51 + |b|];
  }

  /** `routes`: one line per rule, returned in the order they are printed. */
  method Routes(rules: seq<Rule>) returns (lines: seq<string>)
    ensures Sorted(lines)
    ensures multiset(lines) == multiset(seq(|rules|, i requires 0 <= i < |rules| => RouteLine(rules[i])))
  {
    var output: seq<string> := [];
    for i := 0 to |rules|
      invariant |output| == i
      invariant forall j :: 0 <= j < i ==> output[j] == RouteLine(rules[j])
    {
      var methods := MethodsField(rules[i].methods);
      var line := PadRight(rules[i].endpoint, 50) + " " + PadRight(methods, 20) + " " + rules[i].path;
      output := output + [line];
    }
    assert output == seq(|rules|, i requires 0 <= i < |rules| => RouteLine(rules[i]));
    lines := SortStrings(output);
  }

  // ---------------------------------------------------------------------
  // The commands run against the store

  /** `seed_db` step by step on the store. */
  method SeedDb(store: Api.Store, salt: Salt, now: nat)
    requires store.Valid()
    modifies store
    ensures store.Valid()
    ensures store.State() == Seed(old(store.State()), salt, now)
  {
    var admin := FindByUsername(store.users, Api.IdsBelow(store.users, store.nextUserId), AdminName);
    var adminId: nat;
    if admin.None? {
      var user := NewUser(AdminName, Str("admin@example.com"), Str("Admin"), Str("User"), true);
      user := SetPassword(user, AdminPassword, salt);
      var stored := store.SaveNewUser(user, now);
      if stored.None? {
        return;
      }
      adminId := stored.value.id;
    } else {
      adminId := admin.value;
    }
    if |store.posts| == 0 {
      var first := store.SaveNewPost(WelcomePost(adminId), now);
      if first.None? {
        return;
      }
      var second := store.SaveNewPost(DocsPost(adminId), now);
    }
  }

  /** One step of `create_users`: the outcome from profile `i` on is that of
      writing profile `i`, then the rest. */
  lemma CreateUsersStep(t: Tables, profiles: seq<Profile>, salts: seq<Salt>, now: nat, i: nat)
    requires Valid(t) && |salts| == |profiles| && i < |profiles|
    ensures InsertUser(t, ProfileUser(profiles[i], salts[i]), now).IntegrityError? ==>
      CreateUsersFrom(t, profiles[i..], salts[i..], now) == (t, 0)
    ensures InsertUser(t, ProfileUser(profiles[i], salts[i]), now).Committed? ==>
      var t1 := InsertUser(t, ProfileUser(profiles[i], salts[i]), now).tables;
      var rest := CreateUsersFrom(t1, profiles[i + 1..], salts[i + 1..], now);
      CreateUsersFrom(t, profiles[i..], salts[i..], now) == (rest.0, rest.1 + 1)
  {
    assert profiles[i..][0] == profiles[i] && salts[i..][0] == salts[i];
    assert profiles[i..][1..] == profiles[i + 1..];
    assert salts[i..][1..] == salts[i + 1..];
  }

  /** The body of the `create_users` loop: build one user, set its password, save it. */
  method AddSampleUser(store: Api.Store, p: Profile, salt: Salt, now: nat) returns (saved: bool)
    requires store.Valid()
    modifies store
    ensures store.Valid()
    ensures match InsertUser(old(store.State()), ProfileUser(p, salt), now)
      case Committed(t, _) => saved && store.State() == t
      case IntegrityError => !saved && store.State() == old(store.State())
  {
    var user := NewUser(Str(p.username), Str(p.email), Str(p.firstName), Str(p.lastName));
    user := SetPassword(user, SamplePassword, salt);
    var stored := store.SaveNewUser(user, now);
    saved := stored.Some?;
  }

  /** `create_users` step by step on the store; returns how many were written. */
  method CreateUsers(store: Api.Store, profiles: seq<Profile>, salts: seq<Salt>, now: nat)
    returns (created: nat)
    requires store.Valid() && |salts| == |profiles|
    modifies store
    ensures store.Valid()
    ensures (store.State(), created) == CreateUsersFrom(old(store.State()), profiles, salts, now)
  {
    ghost var goal := CreateUsersFrom(store.State(), profiles, salts, now);
    assert profiles[0..] == profiles && salts[0..] == salts;
    created := 0;
    while created < |profiles|
      invariant created <= goal.1
      invariant store.Valid()
      invariant CreateUsersFrom(store.State(), profiles[created..], salts[created..], now) == (goal.0, goal.1 - created)
    {
      CreateUsersStep(store.State(), profiles, salts, now, created);
      var saved := AddSampleUser(store, profiles[created], salts[created], now);
      if !saved {
        assert store.State() == goal.0 && created == goal.1;
        return;
      }
      created := created + 1;
    }
    assert profiles[created..] == [] && salts[created..] == [];
  }
}
