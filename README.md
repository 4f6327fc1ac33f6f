# Auth core of an actix-web login/registration service, in Dafny

This project models the decision logic of a small Rust login and registration service. It is built
on actix-web, SeaORM, Redis and Argon2. The model covers three parts:

- **The bearer-token request gate** (`AuthenticatedUser::from_request`, module `AuthMiddleware`).
  It reads the `Authorization` header value as bytes and turns it into a string under the visible-ASCII
  rule of `HeaderValue::to_str`. It then requires the exact `Bearer ` scheme (section 2.1 of RFC 6750)
  and takes the token after those 7 characters. The token is decoded, and the gate needs a configured
  Redis. It asks Redis whether `bl:<token>` exists. Each failure becomes the same 401 or 500 error,
  with the same message, as in the code.
- **The `login` and `register` handlers** (module `AuthHandler`). `login` is a function: the
  active-user lookup, then parsing the stored hash, then verifying it. `register` is a method on a
  `UserTable` class that holds the `auth_users` rows and the next serial id. It checks for a conflict,
  then hashes, then calls `UserTable.Insert`. `Insert` applies the table's schema: `id` comes from the
  serial, `active` defaults to `true`, and every other column is NOT NULL with no default.
- **The user model** (module `AuthModel`). It has the `RegisterRequest` length rules, the
  `From<(RegisterRequest, String)>` mapping and the `before_save` hook. The hook is a method
  over the active-model value, which Rust takes as `mut self` and returns. It also has the serde view
  of `Model`, which leaves out the password.

External calls are inputs:

- `decode_jwt` is a function parameter.
- The Redis connection is an optional function that answers `EXISTS`.
- Argon2's `PasswordHash::new` and `verify_password` are function parameters.
- The result of `hash_password` is a parameter.
- A lost database connection is a boolean.
- The two clock readings of `before_save` are two parameters.

The model follows the code as written, including where it does less than a login service usually would:

- `register` never calls `validate()`.
- The password rule is a length bound only.
- `login` returns a plain body, not a token.
- The schema declares no unique index, so uniqueness rests on the pre-check alone, and only for registrations that do not overlap in time (see `## Left out`).
- The combined `username or email already exists` message exists. The model proves that, under exact
  string equality, `register` can never produce it (`ConflictNeverCombined`).

## Model

| member | source | states |
|---|---|---|
| AuthMiddleware.ToStr | src/utils/auth_middleware.rs:36-39 | the header converts to a string exactly when every byte is visible ASCII or tab; the string then has the same characters |
| AuthMiddleware.ToStrOfAsciiBytes | src/utils/auth_middleware.rs:36-39 | a header made of visible strings reads back as their concatenation |
| AuthMiddleware.BearerToken | src/utils/auth_middleware.rs:31-45 | a token comes out exactly when the header is present, readable and starts with `Bearer `; `Bearer ` + token is the header text; every failure is a 401 |
| AuthMiddleware.FromRequest | src/utils/auth_middleware.rs:21-71 | an accepted request had a well-formed header and a decodable token, and its identity is the token's `sub` |
| AuthMiddleware.MissingHeaderRejected | src/utils/auth_middleware.rs:31-34 | no header gives 401 `Authorization header missing`, whatever the decoder and Redis do |
| AuthMiddleware.NonVisibleHeaderRejected | src/utils/auth_middleware.rs:36-39 | a header with a byte outside visible ASCII gives 401 `Invalid Authorization header` |
| AuthMiddleware.WrongSchemeRejected | src/utils/auth_middleware.rs:41-43 | a readable header without the exact `Bearer ` prefix gives 401 `Invalid Authorization scheme` |
| AuthMiddleware.LowerCaseSchemeRejected | src/utils/auth_middleware.rs:41-43 | `bearer <t>` is a wrong scheme: the comparison is case-sensitive |
| AuthMiddleware.SchemeWithoutSpaceRejected | src/utils/auth_middleware.rs:41-43 | `Bearer<t>` is a wrong scheme unless `t` itself begins with a space |
| AuthMiddleware.BearerTokenRoundTrip | src/utils/auth_middleware.rs:45 | the header `Bearer <t>` yields exactly `t`, for every visible `t` |
| AuthMiddleware.DecodeFailureUnauthorized | src/utils/auth_middleware.rs:46-54 | a token the decoder refuses gives 401 `Invalid or expired token`; this is decided before Redis is looked at, so it never becomes a 500 |
| AuthMiddleware.InternalErrorOnlyFromRedis | src/utils/auth_middleware.rs:46-61 | a 500 needs a well-formed header and a decoded token, and then Redis missing or its query failing |
| AuthMiddleware.BlacklistKey | src/utils/auth_middleware.rs:57 | the key is `bl:` followed by the token: its first three characters are `bl:` and the rest is the token |
| AuthMiddleware.BlacklistKeyRecoverable | src/utils/auth_middleware.rs:57 | the blacklist key starts with `bl:`, the token is its suffix, and different tokens get different keys |
| AuthMiddleware.RedisQueryFailureFailsClosed | src/utils/auth_middleware.rs:58-61 | a failing `EXISTS` gives 500 `Redis query failed`, never acceptance |
| AuthMiddleware.RevokedTokenRejected | src/utils/auth_middleware.rs:57-65 | a decodable token whose `bl:` key exists gives 401 `Token revoked` |
| AuthMiddleware.AcceptedIff | src/utils/auth_middleware.rs:63-69 | acceptance exactly when the header parses, the decode succeeds, Redis is configured and the key is absent; the identity is `claims.sub` |
| AuthMiddleware.AcceptsValidToken | src/utils/auth_middleware.rs:63-69 | a visible token for `bob` that is not blacklisted is accepted as `bob` |
| AuthModel.Validate | src/models/auth_model.rs:63-85 | each field is reported exactly when its rule fails: username 3..30, password 8..100, phone 10..15 characters, and the email predicate; each field gets the source's message |
| AuthModel.PhoneDigitsNotChecked | src/models/auth_model.rs:79-84 | ten letters pass the phone rule: only the length is checked |
| AuthModel.PasswordLengthScenarios | src/models/auth_model.rs:71-76 | the eight-character `password` passes the password rule and the six-character `short1` fails |
| AuthModel.FromRegister | src/models/auth_model.rs:90-100 | username, email and phone are copied, the password column holds the hash, and id, active and both timestamps stay NotSet |
| AuthModel.FromRegisterIgnoresPlaintext | src/models/auth_model.rs:90-100 | the plaintext password has no effect on the active model and is never stored in place of the hash |
| AuthModel.BeforeSave | src/models/auth_model.rs:41-51 | always `Ok`; on insert it sets `created_at` and `active = true`; it always sets `updated_at`; on update `created_at` and `active` are untouched; no other column changes |
| AuthModel.CreatedAtFixedAfterInsert | src/models/auth_model.rs:45-50 | an update hook after an insert hook keeps `created_at` and `active` and moves only `updated_at` |
| AuthModel.Serialize | src/models/auth_model.rs:12-28 | the serialized object has every column under its field name except `password` |
| AuthModel.Deserialize | src/models/auth_model.rs:12-28 | a model comes back exactly when all seven non-skipped fields are present with the right JSON type and `id` fits in an `i32`; each column then holds the object's value; the password is the default empty string |
| AuthModel.SerializeHidesPassword | src/models/auth_model.rs:19-20 | two models that differ only in the password serialize identically |
| AuthModel.SerializeRoundTrip | src/models/auth_model.rs:12-28 | deserializing a serialized model gives back every column, with the password reset to empty, whenever its id is an `i32` (as every Rust `Model`'s is) |
| AuthHandler.FindActiveByUsername | src/handlers/auth_handler.rs:33-37 | the login query finds nothing exactly when no row is active with that username; otherwise it returns the first such row |
| AuthHandler.FindByUsernameOrEmail | src/handlers/auth_handler.rs:75-81 | the pre-check finds nothing exactly when no row matches the username or the email; a found row is in the table and matches one of them |
| AuthHandler.Login | src/handlers/auth_handler.rs:22-68 | every 200 is `Login successful` and every 401 is `invalid credentials` |
| AuthHandler.LoginLookupErrorIsInternal | src/handlers/auth_handler.rs:46-49 | a failed lookup gives 500 `Internal server error` |
| AuthHandler.LoginNeedsActiveMatchingUser | src/handlers/auth_handler.rs:33-45 | without an active row of that username, login gives `invalid credentials` whatever the password |
| AuthHandler.LoginCorruptHashIsInternal | src/handlers/auth_handler.rs:51-57 | a stored hash that does not parse gives 500, not `invalid credentials` |
| AuthHandler.LoginNoEnumeration | src/handlers/auth_handler.rs:42-66 | an unknown username and a wrong password get the identical 401 response |
| AuthHandler.LoginSucceedsIff | src/handlers/auth_handler.rs:33-67 | login gives 200 exactly when the lookup succeeds, finds an active user, the hash parses and the password verifies |
| AuthHandler.FindActiveInActiveRows | src/handlers/auth_handler.rs:33-37 | the login query gives the same answer on the active rows alone |
| AuthHandler.LoginIgnoresInactiveRows | src/handlers/auth_handler.rs:33-37 | dropping every inactive row leaves every login response unchanged |
| AuthHandler.ConflictResponse | src/handlers/auth_handler.rs:83-95 | a 400 whose body is `username already exists` when the username matches (even if the email does too), else `email already exists` when the email matches, else the combined text |
| AuthHandler.ConflictNeverCombined | src/handlers/auth_handler.rs:75-95 | for the row the pre-check returns, the message is never the combined one |
| AuthHandler.EmailTakenScenario | src/handlers/auth_handler.rs:82-91 | a row with the same email and a different username gives `email already exists` |
| AuthHandler.InsertedRow | migration/src/m20220101_000001_create_table.rs:14-32 | the insert is accepted exactly when every NOT NULL column without a default is given; `id` then defaults to the serial and `active` to `true` |
| AuthHandler.AsWrittenInsertRejected | src/handlers/auth_handler.rs:113-116 | the model that `From` builds, inserted without the hook, is refused on `created_at` |
| AuthHandler.HookedInsertAccepted | src/handlers/auth_handler.rs:113-116 | after `before_save(insert = true)` the insert yields exactly the new user, with `active = true` and both timestamps |
| AuthHandler.AppendKeepsUnique | src/handlers/auth_handler.rs:82-96 | a row the pre-check did not object to keeps usernames and emails unique |
| AuthHandler.NewUserFoundByLogin | src/handlers/auth_handler.rs:116-120 | a newly registered active user is what the login query then finds under that username |
| AuthHandler.LoginAfterRegister | src/handlers/auth_handler.rs:33-62 | after registration, a password the hasher verifies against the stored hash logs in |
| AuthHandler.UserTable.Insert | src/handlers/auth_handler.rs:116-125 | a lost connection, a schema violation or a duplicate id leaves the table unchanged; otherwise exactly the built row is appended, its id returned, and the serial moved past that id; ids stay distinct and below the serial |
| AuthHandler.UserTable.Register | src/handlers/auth_handler.rs:71-126 | lookup error gives 500; a found row gives its conflict 400; a hash or insert error gives 500; success exactly when none of these happen, adding exactly one row with the next serial id, the request's fields, the hash, `active = true` and the two timestamps, and advancing the serial by one; all other outcomes leave the rows and the serial unchanged; username and email uniqueness is preserved |
| AuthHandler.UserTable.RegisterAsWritten | src/handlers/auth_handler.rs:71-126 | the code as written: the same conflict and 500 outcomes, but the table never changes and no request ever gets a 200 |

## Findings

| source | as written | input that shows it | evidently intended | confidence | as-written member | corrected member |
|---|---|---|---|---|---|---|
| src/handlers/auth_handler.rs:113-116 | `register` sends the `From` model to `Entity::insert(..).exec`. That call does not run `ActiveModelBehavior::before_save` (only `ActiveModelTrait::insert`/`save` do), so `created_at` and `updated_at` stay NotSet. Both columns are NOT NULL without a default (migration/src/m20220101_000001_create_table.rs:31-32) | any registration whose username and email are new, with hashing and the connection working | run the hook before the insert, as `create_user.insert(db)` does, so the row gets `active = true` and both timestamps | medium; not executed; rests on SeaORM's documented split between `Entity::insert` and `ActiveModelTrait::insert`, and on an engine that enforces NOT NULL (PostgreSQL, SQLite, strict-mode MySQL); the engine is whatever `DATABASE_URL` names (src/main.rs:35) | AuthHandler.UserTable.RegisterAsWritten, AuthHandler.AsWrittenInsertRejected | AuthHandler.UserTable.Register, AuthHandler.HookedInsertAccepted |

## Left out

- Argon2 hashing and verification, and salt generation from `OsRng`, are foreign crypto calls. Parsing and verifying are function parameters. The hashing outcome is a parameter of `Register`.
- `decode_jwt`: src/utils/jwt.rs is not part of this model. Decoding is an opaque function from the token to `Claims` or an error. Only `sub` is modelled, and expiry checking belongs to the decoder.
- Token issuance and revocation writes: the shown code has neither. `login` answers with a plain body.
- Redis, SeaORM and the async `LocalBoxFuture` machinery are I/O. Redis is an optional `EXISTS` function. A lost database connection is a boolean for each query.
- Reading the header from the request: `headers().get("Authorization")` (a case-insensitive name, first value) is framework code. The model starts from the value's bytes, or none.
- The email-format validator is a foreign crate rule. It is the predicate parameter `isEmail`.
- Logging and client-IP extraction are side effects with no bearing on any response.
- The `index` handler is a constant "Hello world!" and not part of the authentication core.
- src/main.rs, src/routes/auth_route.rs and src/services/auth_service.rs are out of scope. The first is configuration and start-up, the second is route wiring, and the third is entirely commented out.
- AuthHandler.FindActiveByUsername: `.one()` without an ORDER BY may return any matching row. The model returns the first match in table order.
- AuthHandler.FindActiveByUsername: SQL string comparison is exact equality here. Database collations (case or trailing-space folding) are not modelled, so a login whose username differs only by such folding is not covered.
- AuthHandler.FindByUsernameOrEmail: `.one()` without an ORDER BY may return any matching row. The model returns the first match in table order. With one row matching only the email ahead of another matching only the username, the model answers `email already exists`; the database may return the other row, and the service then answers `username already exists`.
- AuthHandler.FindByUsernameOrEmail: SQL string comparison is exact equality here. Database collations (case or trailing-space folding) are not modelled. Such folding is the only way the combined conflict message could appear.
- AuthHandler.UserTable.Register: each call is modelled as one atomic step. In the service the pre-check and the insert are two separate awaits in handlers that run concurrently, and the schema has no unique index. Two requests for the same new username or email can both pass the pre-check and both insert. The contract's uniqueness-preservation clauses hold only for registrations that run one at a time.
- AuthHandler.UserTable.Insert: ids are unbounded integers. `i32` exhaustion of the serial is not modelled. Nor is any database's exact sequence behaviour for explicit ids, which `register` never supplies.
- AuthModel.BeforeSave: `DateTime` is an abstract integer instant. The two `Utc::now()` readings are two independent parameters.
- AuthModel.Serialize: chrono's textual ISO 8601 form for date-times is not modelled. It is kept as an abstract JSON date-time value.
- AuthModel.Deserialize: different serde failures (a missing field, a wrong type, an `id` outside the `i32` range) all become `None`.
- AuthModel.Model: `id` is an unbounded integer; the `i32` range is checked only where a model is deserialized.
- AuthHandler.UserTable.Insert: a failed insert leaves the serial where it was. PostgreSQL's `nextval` can consume a sequence value even when the insert then fails; that gap in the ids is not modelled.
