# Flask starter: users, posts and their rules, in Dafny

This project models the logic of a small Flask + flask-restx starter application:
- the REST handlers for users and posts (`app/blueprints/api.py`), working on a user/post store;
- the SQLAlchemy models behind that store (`app/models/base.py`, `app/models/user.py`), with the column constraints a commit enforces;
- the input validators (`app/utils/validators.py`);
- the `admin_required` decorator (`app/utils/decorators.py`);
- the response-body helpers (`app/utils/helpers.py`);
- the `seed_db`, `create_users` and `routes` CLI commands (`app/commands.py`);
- the rate-limit selection (`config/rate_limiting.py`).

Layout, one module per source file plus shared pieces:

| file | module | models |
|---|---|---|
| `values.dfy` | `Values` | JSON-like values, request bodies, Python truthiness, `dict.get`, handler replies |
| `text.dfy` | `Text` | string order, sorting, joining, padding, decimal digits |
| `base_model.dfy` | `BaseModel` | `BaseModel.to_dict` over a row of columns |
| `user_model.dfy` | `UserModel` | `User`/`Post` records, password hasher, `User.to_dict`, column constraints |
| `session.dfy` | `Session` | the two tables and what `save()`/`delete()` do to them at commit |
| `api.dfy` | `Api` | every handler as a function on the tables, and the class `Store` whose methods do the same step by step |
| `validators.dfy` | `Validators` | `validate_password`, `validate_email`, `validate_json` |
| `decorators.dfy` | `Decorators` | `admin_required` |
| `helpers.dfy` | `Helpers` | `success_response`, `error_response`, `paginate_response` |
| `commands.dfy` | `Commands` | `seed_db`, `create_users`, `routes` |
| `rate_limiting.dfy` | `RateLimiting` | endpoint limits, default/production lists, the limiter key |

**How the store is modelled.**
- The database is a `Tables` value: two maps from id to row, plus the next id of each table.
- `Session.Valid` states every constraint the schema declares:
  - ids are keys;
  - `username` String(80) and `email` String(120) are NOT NULL and UNIQUE;
  - `password_hash` is NOT NULL;
  - the names are String(50);
  - `title` String(200) and `content` are NOT NULL;
  - `summary` is String(500);
  - `published` is a NOT NULL Boolean;
  - every post's `user_id` names a user.
- Saving a row that would break one of these raises at commit. The model gives `IntegrityError` and leaves the tables as they were.
- The handlers do not catch that error, so the reply is a framework 500.
- Each handler is a function `(Tables, ...) -> (Tables, Reply)`.
- `Api.Store` holds the same state in fields. Its handler methods assign the record's fields one by one, as the Python does. Each is proved to end in exactly the state and reply of the function.

**The caller.**
- The caller is what `get_jwt_identity()` returns once `@jwt_required()` has accepted the token.
- `None` stands for a request whose token was missing or invalid; it is turned away with 401.

**Who may change what.**
- The user update/delete guard (`app/blueprints/api.py:96`, `:119`) lets the caller through when it is the user itself or when the *target* record has `is_admin` set; the caller's own flag is not read. So:
  - any authenticated caller may change or delete an admin's record;
  - an admin may change no record but its own.

  `Api.UserGuardReadsTarget` states both consequences.
- Post update/delete (`app/blueprints/api.py:174`, `:197`) test ownership only. An admin gets 403 on a post it does not own (`Api.PostNoAdminOverride`).
- `UserDetail.delete` removes the row; it fails with a server error while the user still owns a post (`Api.UserDeleteOutcome`).

## Model

| member | source | states |
|---|---|---|
| `UserModel.BcryptKey` | app/models/user.py:27 | the part of a password the hasher reads is its first 72 characters, the whole password when shorter |
| `UserModel.ShortKeyUnique` | app/models/user.py:25-31 | a password shorter than 72 characters shares its key with no other password |
| `UserModel.HashThenCheck` | app/models/user.py:25-31 | for a non-empty password (the hasher raises on an empty one), a hash verifies exactly the passwords that agree with the hashed one on their first 72 characters, so only that password when it is shorter; the hash of a password of at most 72 characters is never the password itself |
| `UserModel.LongPasswordsShareHash` | app/models/user.py:25-31 | the hash of a password of 72 characters or more also verifies that password with anything appended |
| `UserModel.SetPassword` | app/models/user.py:25-27 | given a non-empty password, `set_password` stores a hash that verifies exactly the passwords with the same first 72 characters, is not the password when that has at most 72, and changes no other field |
| `UserModel.CheckPassword` | app/models/user.py:29-31 | `check_password` holds only for a user with a stored hash |
| `UserModel.SetThenCheckPassword` | app/models/user.py:25-31 | after `set_password(p)`, `check_password(q)` holds iff `q` and `p` agree on their first 72 characters; for `p` shorter than 72, iff `q == p` |
| `UserModel.NewUser` | app/models/user.py:13-20 | a new user is active, has no password hash and no last login, and `is_admin` is the given flag (default False) |
| `UserModel.NewPost` | app/models/user.py:48-55 | a new post is active and belongs to the given user; `published` defaults to False |
| `UserModel.UserBaseDict` | app/models/base.py:37-42 | a user's base dictionary has one key per column of `users`, each holding the attribute of that name |
| `UserModel.UserToDict` | app/models/user.py:33-38 | `password_hash` is a key iff `include_sensitive`; the other keys are always the columns of `users` |
| `UserModel.UserToDictHidesHash` | app/models/user.py:33-38 | `to_dict()` has no `password_hash`; its keys are the other columns, with the base dictionary's values |
| `UserModel.UserToDictSensitive` | app/models/user.py:33-38 | `to_dict(include_sensitive=True)` is the base dictionary and holds the stored hash |
| `UserModel.PostToDict` | app/models/base.py:37-42 | a post's dictionary has one key per column of `posts`, each holding the attribute of that name |
| `UserModel.BooleanColumn` | app/models/user.py:52 | the Boolean column stores a bool as itself and accepts nothing but a bool, 0 or 1 |
| `BaseModel.ToDict` | app/models/base.py:37-42 | the dictionary's keys are exactly the column names |
| `BaseModel.ToDictFromAttributes` | app/models/base.py:37-42 | when every column holds the attribute of its name, so does every dictionary entry |
| `BaseModel.ToDictLookup` | app/models/base.py:37-42 | a column that no later column shadows keeps its value in the dictionary |
| `Session.Valid` | app/models/user.py:13-20 | the declared constraints (see above) imply that neither table holds id 0 or its next id |
| `Session.EmptyTables` | app/models/base.py:19-24 | the empty database satisfies every constraint |
| `Session.InsertUser` | app/models/base.py:26-30 | a new user's save either commits it under the next id, with both timestamps set to now and every other field as given, leaving the rest of the tables alone, or fails with nothing written; it fails exactly when a column constraint is broken or the username or email is already used |
| `Session.UpdateUser` | app/models/base.py:8-16 | saving a stored user replaces only that row; `updated_at` is refreshed exactly when some column changed, and an unchanged row is a no-op; a changed row fails exactly when, stamped now, it breaks a column constraint or shares a username or email with another user |
| `Session.DeleteUser` | app/models/base.py:32-35 | deleting a user fails exactly when it owns a post (its NOT NULL `user_id` would be cleared); otherwise exactly that row is removed |
| `Session.StoredPost` | app/models/user.py:52 | a post row is written with `published` as a bool, or refused when the value is not a Boolean |
| `Session.InsertPost` | app/models/base.py:26-30 | a new post's save commits it under the next id, stamped now, owned by an existing user, changing nothing else, or writes nothing; a `published` of None takes the column default False, any other value is stored through the Boolean column; it fails exactly when the Boolean column refuses the value, the row breaks a column constraint, or its `user_id` names no user |
| `Session.UpdatePost` | app/models/base.py:8-16 | saving a stored post replaces only that row and keeps the constraints; `published` is stored through the Boolean column; `updated_at` is refreshed exactly when some column changed; it fails exactly when the Boolean column refuses the value, or the row changed and, stamped now, breaks a column constraint or names no user |
| `Session.DeletePost` | app/models/base.py:32-35 | deleting a post removes exactly that row and keeps every other post and user |
| `Api.IdsBelow` | app/blueprints/api.py:48-51 | the listed ids are exactly the stored ones, strictly ascending |
| `Api.PublishedIds` | app/blueprints/api.py:130-133 | the listed post ids are exactly the stored published ones, strictly ascending |
| `Api.UserListGet` | app/blueprints/api.py:48-51 | GET /users/ answers 200 with a list of dictionaries, each with the columns of `users` but `password_hash` |
| `Api.UserListHidesHashes` | app/blueprints/api.py:48-51 | the user list holds one item per stored user, in id order, each that user's `to_dict()`, none with `password_hash` |
| `Api.UserDetailGet` | app/blueprints/api.py:84-87 | GET /users/<id> answers 200 iff the id is stored, 404 otherwise; the body holds that user's columns but the hash, each with the user's attribute |
| `Api.PostListGet` | app/blueprints/api.py:130-133 | GET /posts/ answers 200 with a list of post dictionaries, every one with `published` True |
| `Api.PublishedDicts` | app/blueprints/api.py:132-133 | the dictionary of a published post says `published: True` |
| `Api.PostListIsPublished` | app/blueprints/api.py:130-133 | the post list is the dictionaries of exactly the published posts, in id order |
| `Api.PostDetailGet` | app/blueprints/api.py:162-165 | GET /posts/<id> answers 200 iff the id is stored, 404 otherwise; the body holds the post's columns, each with the post's attribute |
| `Api.BindAsText` | app/blueprints/api.py:61-65 | what `filter_by` compares a `String` column with: a string as itself, an integer or boolean as its decimal text; a list, an object or an integer beyond 64 bits cannot be bound and raises |
| `Api.IntText` | app/blueprints/api.py:61-65 | an integer's text starts with '-' exactly when it is negative |
| `Api.IntTextInjective` | app/blueprints/api.py:61-65 | different integers have different texts |
| `Api.IntegerLookupMatchesText` | app/blueprints/api.py:61-62 | an integer username finds exactly the user whose username is its text, `true` finds "1", and no other integer has that text |
| `Api.UserListPost` | app/blueprints/api.py:53-76 | creating a user keeps the constraints, and any reply but 201 leaves the tables unchanged |
| `Api.CreateUserMissingFields` | app/blueprints/api.py:58-59 | an absent or falsy username, email or password gives 400 "Missing required fields" and no change |
| `Api.CreateUserUsernameFirst` | app/blueprints/api.py:61-65 | a taken username gives 400 "Username already exists" whatever the email, with no change |
| `Api.CreateUserEmailTaken` | app/blueprints/api.py:61-65 | with a bindable username that finds no row, a stored email gives 400 "Email already exists" and no change |
| `Api.CreateUserUnbindable` | app/blueprints/api.py:61-65 | a username the driver cannot bind, or a free username with an unbindable email, makes the lookup raise: 500 and no change |
| `Api.CreateUserCommits` | app/blueprints/api.py:58-76 | a create answers 201 exactly when the three fields are truthy, the password is a string, neither lookup finds a row and the new row meets the schema |
| `Api.CreateUserSuccess` | app/blueprints/api.py:58-76 | a 201 means: the fields were present, the username and email were free, and exactly one user was added under the next id with the given username and email, nothing else changing; its names default to '', it is not an admin, its hash verifies the passwords agreeing with the given one on 72 characters (exactly the given one when shorter), and the reply is its dictionary without the hash |
| `Api.ApplyUserFields` | app/blueprints/api.py:101-108 | only username, email, first_name and last_name can change |
| `Api.UserDetailPut` | app/blueprints/api.py:89-111 | the update keeps the constraints, and any reply but 200 leaves the tables unchanged |
| `Api.UserDetailDelete` | app/blueprints/api.py:113-123 | the delete keeps the constraints, and any reply but 204 leaves the tables unchanged |
| `Api.UserDetailRefusals` | app/blueprints/api.py:93-97 | a missing id gives 404 before any ownership test; a caller that is not the user, on a non-admin record, gets 403; neither changes anything |
| `Api.UserDeleteOutcome` | app/blueprints/api.py:113-123 | a delete answers 204 iff there is a token, the user exists, the guard passes and the user owns no post; it then removes exactly that user; a guarded user who owns a post gives 500 with nothing removed |
| `Api.UserGuardReadsTarget` | app/blueprints/api.py:96 | an admin caller is refused on another non-admin's record, and a non-admin caller is let through on an admin's record |
| `Api.UserUpdateOnlyNamedFields` | app/blueprints/api.py:91-111 | a 200 means the guard passed; the fields present in the body took its values on that one record, the others stayed, `updated_at` was refreshed exactly when something changed; nothing else changed, and the reply is the new dictionary |
| `Api.UserUpdateCommits` | app/blueprints/api.py:91-111 | an update answers 200 iff there is a token, the user exists, the guard passes, and the assigned record is unchanged or meets the schema and clashes with no other user |
| `Api.UserUpdateDuplicateUsername` | app/blueprints/api.py:101-110 | renaming onto another user's username is not checked by the handler; the UNIQUE constraint makes the commit fail (500) with nothing changed |
| `Api.PostListPost` | app/blueprints/api.py:135-154 | creating a post keeps the constraints, and any reply but 201 leaves the tables unchanged |
| `Api.PostCreateSuccess` | app/blueprints/api.py:139-154 | a 201 means: an authenticated caller and a truthy title and content; exactly one post was added, owned by the caller, with the title and content sent, `summary` defaulting to ''; `published` is False when absent or None and otherwise the Boolean column's reading of the value sent; the reply is its dictionary |
| `Api.PostCreateCommits` | app/blueprints/api.py:137-154 | a create answers 201 iff there is a token naming a stored user, the title and content are truthy, the Boolean column accepts `published` (None taking the default False) and the row meets the schema |
| `Api.PostCreateNeedsTitleAndContent` | app/blueprints/api.py:142-143 | a falsy or absent title or content gives 400 "Title and content required" and no change |
| `Api.ApplyPostFields` | app/blueprints/api.py:179-186 | only title, content, summary and published can change |
| `Api.PostDetailPut` | app/blueprints/api.py:167-189 | the update keeps the constraints, and any reply but 200 leaves the tables unchanged |
| `Api.SavedPostFields` | app/blueprints/api.py:179-188 | saving a post after the assignments writes the fields present in the body, `published` through the Boolean column, and touches no other row |
| `Api.PostUpdateOnlyNamedFields` | app/blueprints/api.py:169-189 | a 200 means the caller owns the post; the fields present in the body took its values (`published` through the Boolean column), the others stayed, `updated_at` was refreshed exactly when something changed; nothing else changed, and the reply is the new dictionary |
| `Api.PostUpdateCommits` | app/blueprints/api.py:169-189 | an update answers 200 iff there is a token, the caller owns the post, the Boolean column accepts `published`, and the assigned row is unchanged or meets the schema |
| `Api.PostDetailDelete` | app/blueprints/api.py:191-201 | the delete keeps the constraints, and any reply but 204 leaves the tables unchanged |
| `Api.PostChangesNeedOwner` | app/blueprints/api.py:174-175 | put succeeds only for the owner; delete succeeds iff the caller owns the post, and then removes exactly that post |
| `Api.PostNoAdminOverride` | app/blueprints/api.py:197-198 | an admin who does not own a post gets 403 on put and delete |
| `Api.TokenRequired` | app/blueprints/api.py:89 | every mutating handler behind `@jwt_required()` answers 401 without a token and changes nothing |
| `Api.Store.constructor` | app/models/base.py:19-24 | a new store is empty and valid |
| `Api.Store.SaveNewUser` | app/models/base.py:26-30 | the store's insert ends in the state `Session.InsertUser` gives and returns the stored row |
| `Api.Store.SaveUser` | app/models/base.py:26-30 | the store's save of a stored user ends in the state `Session.UpdateUser` gives |
| `Api.Store.SaveNewPost` | app/models/base.py:26-30 | the store's insert ends in the state `Session.InsertPost` gives |
| `Api.Store.SavePost` | app/models/base.py:26-30 | the store's save of a stored post ends in the state `Session.UpdatePost` gives |
| `Api.Store.CreateUser` | app/blueprints/api.py:53-76 | the handler's new state and reply are exactly `UserListPost`'s |
| `Api.Store.UpdateUser` | app/blueprints/api.py:89-111 | the handler, assigning fields one by one, ends exactly as `UserDetailPut` |
| `Api.Store.DeleteUser` | app/blueprints/api.py:113-123 | the handler ends exactly as `UserDetailDelete` |
| `Api.Store.CreatePost` | app/blueprints/api.py:135-154 | the handler ends exactly as `PostListPost` |
| `Api.Store.UpdatePost` | app/blueprints/api.py:167-189 | the handler, assigning fields one by one, ends exactly as `PostDetailPut` |
| `Api.Store.DeletePost` | app/blueprints/api.py:191-201 | the handler ends exactly as `PostDetailDelete` |
| `Validators.HasCharIn` | app/utils/validators.py:18-23 | `re.search` for a character range holds iff some character is in the range |
| `Validators.ValidatePassword` | app/utils/validators.py:14-24 | the verdict is True exactly when the message is empty |
| `Validators.PasswordAcceptedIffStrong` | app/utils/validators.py:14-24 | a password passes, with (True, ''), iff it has at least 8 characters and an upper-case letter, a lower-case letter and a digit |
| `Validators.PasswordFirstFailure` | app/utils/validators.py:16-23 | the message is that of the first failing check, in the order length, upper case, lower case, digit |
| `Validators.ShortPasswordGetsLengthMessage` | app/utils/validators.py:16-17 | any password shorter than 8 gets the length message |
| `Validators.IndexOf` | app/utils/validators.py:10 | the first occurrence of a character, or none |
| `Validators.LastIndexOf` | app/utils/validators.py:10 | the last occurrence of a character, or none |
| `Validators.ValidateEmail` | app/utils/validators.py:8-11 | an accepted address has at least six characters and an '@' |
| `Validators.EmailParts` | app/utils/validators.py:8-11 | an accepted address splits as local '@' domain '.' top level, each over its character class |
| `Validators.ValidateEmailSound` | app/utils/validators.py:8-11 | every accepted string has the shape L '@' D '.' T |
| `Validators.ValidateEmailComplete` | app/utils/validators.py:8-11 | every string of that shape is accepted |
| `Validators.ValidateEmailIffShape` | app/utils/validators.py:8-11 | the email check accepts exactly the strings L '@' D '.' T: L non-empty over `[a-zA-Z0-9._%+-]`, D non-empty over `[a-zA-Z0-9.-]`, T at least two ASCII letters |
| `Validators.AcceptedEmailHasOneAt` | app/utils/validators.py:10 | an accepted address has exactly one '@' |
| `Validators.AcceptedEmailTopLevel` | app/utils/validators.py:10 | an accepted address ends in at least two letters after its last '.' |
| `Validators.EmailMatchAsWritten` | app/utils/validators.py:10-11 | the pattern as written accepts every address the whole-string check does, and beyond those only strings ending in '\n' |
| `Validators.EmailAsWrittenDiffersOnlyByNewline` | app/utils/validators.py:10-11 | `re.match` with the trailing `$` accepts exactly the shaped strings and those strings followed by one '\n' |
| `Validators.TrailingNewlineAccepted` | app/utils/validators.py:10-11 | "a@b.co\n" is accepted by the pattern as written and rejected by the whole-string check |
| `Validators.PlainAddressAccepted` | app/utils/validators.py:10-11 | "a@b.co" is accepted |
| `Validators.NewlineAddressRejected` | app/utils/validators.py:10-11 | "a@b.co\n" does not have the shape |
| `Validators.MissingFields` | app/utils/validators.py:35 | the missing list holds exactly the required fields that are not keys of the body |
| `Validators.MissingFieldsSplit` | app/utils/validators.py:35 | the missing list keeps the order of the required fields |
| `Validators.ValidateJson` | app/utils/validators.py:27-42 | a non-JSON request gets 415 first; a missing field gives 400 "Missing fields: " with the missing list joined by ", "; otherwise the view's reply is passed back unchanged |
| `Decorators.AdminDecision` | app/utils/decorators.py:9-23 | the view is let through iff the caller is a stored admin; no token gives 401; an unknown or non-admin user gives 403 "Admin access required" |
| `Decorators.AdminRequired` | app/utils/decorators.py:9-23 | the decorated view answers with the view's own reply, a 401 or a 403 |
| `Decorators.AdminRequiredOutcomes` | app/utils/decorators.py:13-22 | the four outcomes: 401 without a token, 403 for an unknown user, 403 for a non-admin, the view's own reply for an admin |
| `Decorators.AdminDecisionIgnoresView` | app/utils/decorators.py:19-20 | a refusal does not depend on the view (the view is not called) |
| `Helpers.SuccessResponse` | app/utils/helpers.py:7-16 | `success` is True; `data` is present iff it is not None, `message` iff it is truthy, each with the given value; no other key; the status passes through |
| `Helpers.ErrorResponse` | app/utils/helpers.py:19-29 | `success` is False and `error` is the message; `errors` is present iff truthy; no other key; the status passes through (default 400) |
| `Helpers.PaginateResponse` | app/utils/helpers.py:32-48 | the seven keys; `current_page` and `per_page` echo the arguments; `items` maps `to_dict` over the page's items in order; the counts and flags are the pagination's |
| `RateLimiting.RateLimitForEndpoint` | config/rate_limiting.py:50-60 | a limit list exists iff the endpoint is one of the five named ones, each with one limit |
| `RateLimiting.EndpointLimits` | config/rate_limiting.py:52-60 | the five endpoints' limits, and None for any other name |
| `RateLimiting.LimitsFor` | config/rate_limiting.py:26-39 | the production list is chosen iff `ENV` is 'production', the default list otherwise |
| `RateLimiting.DefaultEnvironment` | config/rate_limiting.py:39 | without `ENV` the default list is used |
| `RateLimiting.RateLimitKey` | config/rate_limiting.py:10-19 | "test" outside a request; "user_" + id for a request with a user; otherwise the remote address, never empty |
| `RateLimiting.UserKeysDistinct` | config/rate_limiting.py:14-15 | two users get the same key only if they are the same user |
| `RateLimiting.UserKeyRoundTrip` | config/rate_limiting.py:14-15 | a user key is "user_" followed by the decimal digits of the id, which read back to the id |
| `Text.SortStrings` | app/commands.py:97 | `sorted` returns an ordered permutation of its input |
| `Text.InsertSorted` | app/commands.py:97 | inserting into an ordered list keeps it ordered |
| `Text.SortedUnique` | app/commands.py:100 | two ordered lists with the same elements are equal |
| `Text.SortOrderIndependent` | app/commands.py:97 | the sorted result depends only on the elements, not on their order |
| `Text.LexLeTotal` | app/commands.py:100 | string comparison is total |
| `Text.LexLeTransitive` | app/commands.py:100 | string comparison is transitive |
| `Text.LexLeAntisymmetric` | app/commands.py:100 | string comparison is antisymmetric |
| `Text.PadRight` | app/commands.py:98 | `{s:<n}` has length max(n, len(s)), starts with `s` and is padded with spaces |
| `Text.DecimalRoundTrip` | config/rate_limiting.py:15 | the decimal rendering of an id reads back to the id |
| `Text.NatToDecimalInjective` | config/rate_limiting.py:15 | different ids render differently |
| `Commands.FindByUsername` | app/commands.py:23 | the query returns a stored user with that username from the listed ids, or none exactly when there is no such user |
| `Commands.AdminLookupFinds` | app/commands.py:23 | the lookup of 'admin' finds the one user named 'admin' when there is one |
| `Commands.AdminUser` | app/commands.py:25-32 | the seeded admin is named 'admin', has email admin@example.com, is an admin, and its password verifies exactly 'Admin123!' |
| `Commands.SeedPostsOnlyIfEmpty` | app/commands.py:37-56 | `SeedPosts`, the post half of `seed_db` run with the admin's id: sample posts are written only into an empty post table, exactly two, both published, both owned by that admin, with the two titles |
| `Commands.Seed` | app/commands.py:19-58 | seeding keeps every constraint |
| `Commands.SeedKeepsRows` | app/commands.py:19-58 | seeding never changes or removes an existing user or post |
| `Commands.SeedKeepsExistingAdmin` | app/commands.py:23-24 | with a user named 'admin' already stored, no user is written |
| `Commands.SeedAdminOnlyIfAbsent` | app/commands.py:23-33 | with no 'admin' and its email free, exactly one user is added, under the next id: the admin of `AdminUser`, stamped now |
| `Commands.AdminWriteFailsIffEmailTaken` | app/commands.py:33 | writing the admin fails exactly when another user already has its email; when it succeeds the tables change |
| `Commands.SeedLeavesAdminAndPosts` | app/commands.py:19-58 | once seeding has changed anything, an 'admin' user exists and the post table is not empty |
| `Commands.SeedIdempotent` | app/commands.py:23-37 | a second run changes nothing, whatever its salt and time |
| `Commands.CreateUsersFrom` | app/commands.py:61-78 | `create_users` keeps the constraints and writes at most `count` users |
| `Commands.CreateUsersKeepsRows` | app/commands.py:61-78 | no existing user or post is changed |
| `Commands.CreateUsersAddsSampleUsers` | app/commands.py:68-76 | the users written take the next consecutive ids, and nothing else is added |
| `Commands.CreateUsersSamplePasswords` | app/commands.py:75 | every user written is not an admin and has password 'Password123!' |
| `Commands.CreateUsersWritesAll` | app/commands.py:68-76 | with profiles that fit the columns and clash with nothing, exactly `count` users are written |
| `Commands.WithoutImplicit` | app/commands.py:97 | HEAD and OPTIONS are removed and every other method is kept as often as it appeared |
| `Commands.ImplicitMethodsOnly` | app/commands.py:97 | `MethodsField`, the methods column: a rule whose only methods are HEAD and OPTIONS shows it empty |
| `Commands.MethodsFieldOrderIndependent` | app/commands.py:97 | the methods column does not depend on the order the method set is iterated in |
| `Commands.RouteLine` | app/commands.py:98 | a route line starts with the endpoint and ends with the path |
| `Commands.RouteLineColumns` | app/commands.py:98 | with an endpoint up to 50 and methods up to 20 characters, the line holds the endpoint, then the methods from column 51, then the path from column 72 |
| `Commands.Routes` | app/commands.py:90-101 | the printed lines are one line per rule, in sorted order |
| `Commands.SeedDb` | app/commands.py:19-58 | the command, run against the store, ends in exactly the state `Seed` gives |
| `Commands.AddSampleUser` | app/commands.py:69-76 | one loop step: the user is saved and the store is `InsertUser`'s result, or it is refused and the store is unchanged |
| `Commands.CreateUsers` | app/commands.py:68-78 | the loop ends in exactly the state and count `CreateUsersFrom` gives |

## Left out

- Token handling: signing, verifying and expiring JWTs (`flask_jwt_extended`) is a foreign library. The caller is an `Option<nat>`, and the 401 body the library writes is not modelled.
- Password hashing: bcrypt is a foreign library. `GeneratePasswordHash` is a stand-in that embeds the salt and the first 72 characters of the password, so it is not one-way. The salt, which bcrypt draws at random, is a parameter.
- HashThenCheck, SetPassword, SetThenCheckPassword, CreateUserSuccess: bcrypt reads the first 72 *bytes* of the UTF-8 encoding; the model truncates at 72 *characters*, which agree only for ASCII passwords. bcrypt releases from 5.0 on raise on a longer password instead of truncating (a 500 from `UserList.post`); the model follows the truncating releases.
- Framework replies: the bodies of 401, 404 and 500 replies are produced by the framework. They are modelled as `Null`; only the status is checked.
- Request bodies are JSON objects of null, booleans, integers, strings, lists and objects. A non-JSON or non-object body, and JSON floats, are not modelled.
- SQLite does not enforce `String(n)` lengths or the foreign key unless configured to. The model enforces the schema as declared.
- UserModel.UserRowOk, UserModel.PostRowOk, Api.CreateUserCommits: SQLite stores an integer or boolean sent for a `String` column (say `{"first_name": 5}`) as text, so the source answers 200 or 201; the model requires a string there and answers 500. The coercion is modelled for the lookups of `UserList.post` (`Api.BindAsText`) but not for the stored row: an integer username that finds no user is stored as text and answered 201 in the source, 500 in the model.
- Ids are the next value of a per-table counter. A reused id after a delete (SQLite's max+1) is not modelled.
- Timestamps: `datetime.utcnow` is a `now: nat` parameter. `Commands.Seed` uses one `now` for the whole run.
- Dictionary key order in `to_dict` and in the replies is not modelled: dictionaries are maps.
- Api.UserListGet, Api.UserDetailGet, Api.PostListGet, Api.PostDetailGet, Api.UserListPost, Api.UserDetailPut, Api.PostListPost, Api.PostDetailPut: these handlers return plain dictionaries holding the `created_at`/`updated_at` datetimes, which flask-restx renders with the standard `json.dumps` and no encoder for datetimes configured. The model assumes the datetimes serialise and answers 200/201 with `Time` values; a rendering failure, which for the four writing handlers would come after the commit, is not modelled.
- `make_response`/`jsonify`, `click.echo` and `print` output: replies are status and body values, and `routes` returns its lines instead of echoing them.
- `init_db`, `reset_db` (DDL and an interactive confirm) and `Limiter` construction are not modelled.
- Faker: `create_users` takes the generated profiles and salts as inputs.
- `query.paginate` is not modelled: the pagination it returns is an input of `Helpers.PaginateResponse`.
- `Rule.methods` is a set. `routes` receives it as a sequence in the set's iteration order; `Commands.MethodsFieldOrderIndependent` shows that order does not matter.
- `get_remote_address` is flask_limiter's. Its fallback to "127.0.0.1" without a remote address is modelled as that library documents it.
- `request.user` is modelled as an optional user id. Any other truthy object with an `id` is not.
- `\d` in `validate_password` matches every Unicode decimal digit. The model accepts ASCII digits only.
- `re.match` on the email pattern: the shape `ValidateEmail` accepts is the whole-string one. The as-written behaviour, a trailing '\n' also accepted, is `Validators.EmailMatchAsWritten` (see Findings).
- `User.set_password` assigns a field of the object. The model treats the user as a value and returns the updated record; the handlers' own step-by-step field assignments are modelled in `Api.Store`.
- Registration, login and `/me` live in `app/blueprints/auth.py`, which is not part of this model. They are not invented here.
- Flask-Admin views, logging, gunicorn settings, the React front end and the Redis cache are outside this model.

## Findings

| source | as written | input that shows it | evidently intended | confidence | as-written member | corrected member |
|---|---|---|---|---|---|---|
| app/utils/validators.py:10-11 | `re.match` with a pattern ending in `$`, which also matches just before a final newline | "a@b.co\n" is accepted | accept only strings that are entirely an address | not executed; high | `Validators.EmailMatchAsWritten`, `Validators.TrailingNewlineAccepted` | `Validators.ValidateEmail`, `Validators.ValidateEmailIffShape` |
